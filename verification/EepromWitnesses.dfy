/** Runs from an erased flash in which the emulation fails its caller.  They exist for every table and
    every page size: the store can be lost, the device can be stuck, a completed write can be undone. */
module EepromWitnesses {
  import opened Basics
  import opened FlashMemory
  import opened PageLog
  import opened EepromPlan
  import opened EepromPhases
  import opened EepromRecovery
  import opened EepromCrash
  import opened EepromEarlyWrite
  import opened EepromRuns

  function NewDeviceOn(f: Flash): Device {
    Device(f, false, 0)
  }

  /** Page `v` is in use, full, and stands for one variable. */
  ghost predicate FullOfOne(d: Device, table: seq<HalfWord>, v: PageId, r: Record) {
    && Sound(d, table) && Mounted(d.flash, table, v) && r.tag in table
    && Used(d.flash.At(v)) == Slots(d.flash.At(v)) && StoreOf(d.flash.At(v)) == map[r.tag := r.data]
  }

  /** Formatting a new device. */
  lemma {:induction false} Formatted(f: Flash, table: seq<HalfWord>)
    requires Virgin(f) && GoodTable(table) && |table| < Slots(f.page0)
    ensures var e := Step(NewDeviceOn(f), table, Init(3));
            Sound(e, table) && Mounted(e.flash, table, Page0)
            && Used(e.flash.page0) == 1 && StoreOf(e.flash.page0) == map[]
  {
    hide Mounted, Switched, Receiving, Used, AsAsked, Deviates, Unspoilt, Exec, StoreOf, Virgin, InitPlan;
    NewDevice(f, table);
    InitKeeps(NewDeviceOn(f), table, 3);
    FormatCut(f, table, 3);
    MountedFacts(Step(NewDeviceOn(f), table, Init(3)).flash, table, Page0);
  }

  /** One more record on a page that has room. */
  lemma {:induction false} OneMore(d: Device, table: seq<HalfWord>, v: PageId, r: Record)
    requires Sound(d, table) && Mounted(d.flash, table, v) && r.tag in table
    requires Used(d.flash.At(v)) < Slots(d.flash.At(v))
    ensures var e := Step(d, table, Write(r, 2));
            && Sound(e, table) && e.ready && Mounted(e.flash, table, v)
            && Used(e.flash.At(v)) == Used(d.flash.At(v)) + 1
            && StoreOf(e.flash.At(v)) == StoreOf(d.flash.At(v))[r.tag := r.data]
  {
    hide Mounted, Switched, Receiving, Used, AsAsked, Deviates, Unspoilt, Exec, StoreOf, AppendPlan, Recoverable,
         Doubled;
    WriteKeeps(d, table, r, 2);
    AppendInPlaceCut(d.flash, table, v, r, 2);
    MountedFacts(d.flash, table, v);
    MountedFacts(Step(d, table, Write(r, 2)).flash, table, v);
  }

  /** The same record, until the page is full. */
  lemma {:induction false} Fill(d: Device, table: seq<HalfWord>, v: PageId, r: Record) returns (cs: seq<Call>)
    requires Sound(d, table) && Mounted(d.flash, table, v) && r.tag in table
    requires Used(d.flash.At(v)) < Slots(d.flash.At(v))
    requires StoreOf(d.flash.At(v)).Keys <= {r.tag}
    ensures AllInTable(table, cs) && Run(d, table, cs).ready && FullOfOne(Run(d, table, cs), table, v, r)
    decreases Slots(d.flash.At(v)) - Used(d.flash.At(v))
  {
    hide Mounted, Sound, Used, Step, StoreOf, Recoverable, Doubled;
    SoundShape(d, table);
    OneMore(d, table, v, r);
    var c := Write(r, 2);
    var e := Step(d, table, c);
    SoundShape(e, table);
    UsedWithin(e.flash, table, v);
    SameSize(d, table, c);
    assert StoreOf(e.flash.At(v)) == map[r.tag := r.data];
    if Used(e.flash.At(v)) < Slots(e.flash.At(v)) {
      var rest := Fill(e, table, v, r);
      cs := [c] + rest;
      assert cs[1..] == rest;
    } else {
      cs := [c];
      RunOne(d, table, c);
    }
  }

  lemma {:induction false} UsedWithin(f: Flash, table: seq<HalfWord>, v: PageId)
    requires Mounted(f, table, v)
    ensures Used(f.At(v)) <= Slots(f.At(v))
  {
  }

  lemma {:induction false} SameSize(d: Device, table: seq<HalfWord>, c: Call)
    requires d.flash.Shaped()
    ensures var g := Step(d, table, c).flash; |g.page0| == |d.flash.page0| == |g.page1| == |d.flash.page1|
  {
  }

  /** From a new device to a full page that stands for one variable. */
  lemma {:induction false} Filled(f: Flash, table: seq<HalfWord>) returns (cs: seq<Call>)
    requires Virgin(f) && GoodTable(table) && 0 < |table| < Slots(f.page0)
    ensures var d := Run(NewDeviceOn(f), table, cs);
            AllInTable(table, cs) && d.ready && FullOfOne(d, table, Page0, Record(table[0], 0))
            && |d.flash.page0| == |f.page0|
  {
    hide Mounted, Sound, Used, Step, StoreOf, FullOfOne, Virgin;
    Formatted(f, table);
    var c := Init(3);
    VirginShape(f);
    var e := Step(NewDeviceOn(f), table, c);
    SoundShape(e, table);
    SameSize(NewDeviceOn(f), table, c);
    var rest := Fill(e, table, Page0, Record(table[0], 0));
    cs := [c] + rest;
    assert cs[1..] == rest;
    RunSize(NewDeviceOn(f), table, cs);
  }

  lemma {:induction false} VirginShape(f: Flash)
    requires Virgin(f)
    ensures f.Shaped()
  {
  }

  lemma {:induction false} RunSize(d: Device, table: seq<HalfWord>, cs: seq<Call>)
    requires d.flash.Shaped()
    ensures |Run(d, table, cs).flash.page0| == |d.flash.page0|
    decreases |cs|
  {
    hide Step;
    if cs != [] {
      SameSize(d, table, cs[0]);
      RunSize(Step(d, table, cs[0]), table, cs[1..]);
    }
  }

  /** A transfer out of page `v`, which stands for one variable, is under way, record 1 of the new page
      is missing and `n` words of it are in use. */
  ghost predicate Begun(d: Device, table: seq<HalfWord>, v: PageId, r: Record, n: nat) {
    && Sound(d, table) && Receiving(d.flash, table, v) && r.tag in table && r.data != ERASED
    && StoreOf(d.flash.At(v)) == map[r.tag := r.data]
    && TagAt(d.flash.At(v.Other()), 1) == ERASED && Used(d.flash.At(v.Other())) == n
  }

  /** A write cut after it marked the other page. */
  lemma {:induction false} MarkOnly(d: Device, table: seq<HalfWord>, v: PageId, r: Record)
    requires FullOfOne(d, table, v, r) && r.data != ERASED
    ensures Begun(Step(d, table, Write(r, 1)), table, v, r, 1)
  {
    hide Mounted, Switched, Interrupted, Receiving, Used, AsAsked, Deviates, Unspoilt, StoreOf, AppendPlan,
         Recoverable, Doubled, Faithful, FillPlan, Do, Legal;
    var f := d.flash;
    var mark := Program(v.Other(), 0, RECEIVE_DATA);
    WriteKeeps(d, table, r, 1);
    FullPage(f, table, v, r);
    MountedFacts(f, table, v);
    MarkInterrupts(f, table, v);
    ExecOne(f, mark);
    assert WritePlan(f, table, r) == All([mark]).Then(FillPlan(Do(f, mark), table, v, r));
    ThenCut(f, All([mark]), FillPlan(Do(f, mark), table, v, r), 1);
    assert [mark][..1] == [mark];
    InterruptedReceives(Do(f, mark), table, v);
  }

  /** There is one record to copy, unless it is to be skipped. */
  lemma {:induction false} OneSurvivor(table: seq<HalfWord>, r: Record, skip: HalfWord)
    requires GoodTable(table) && r.tag in table
    ensures Survivors(table, 0, map[r.tag := r.data], skip) == if r.tag == skip then [] else [r]
  {
    var m := map[r.tag := r.data];
    var rs := Survivors(table, 0, m, skip);
    SurvivorsAre(table, 0, m, skip);
    assert table[0..] == table;
    assert Tags(rs) == if r.tag == skip then {} else {r.tag};
    assert forall i :: 0 <= i < |rs| ==> rs[i].tag in m && rs[i].data == m[rs[i].tag];
    assert forall i :: 0 <= i < |rs| ==> rs[i] == r && rs[i].tag in Tags(rs);
    if rs == [] {
      NoTags();
    } else {
      assert rs[0] == r && r.tag in Tags(rs);
      assert |rs| == 1 by {
        assert |rs| > 1 ==> rs[0].tag != rs[1].tag;
      }
      assert rs == [r];
    }
  }

  /** An EE_Init cut after its first primitive tears a record and uses up a word. */
  lemma {:induction false} TearOne(d: Device, table: seq<HalfWord>, v: PageId, r: Record, n: nat)
    requires Begun(d, table, v, r, n) && n < Slots(d.flash.page0)
    ensures Begun(Step(d, table, Init(1)), table, v, r, n + 1)
  {
    hide Mounted, Switched, Receiving, Used, AsAsked, Deviates, Unspoilt, StoreOf, AppendPlan, Recoverable, Doubled,
         Holds, Exec, Survivors, CopyPlan, WritePage, Torn, Appended, Copies, TagAt;
    var f := d.flash;
    var w := v.Other();
    InitKeeps(d, table, 1);
    ResumeInit(f, table, v);
    OneSurvivor(table, r, ERASED);
    ReceivingHolds(f, table, v);
    ReceivingFacts(f, table, v);
    AppendExec(f, w, r, table, RECEIVE_DATA);
    AppendHolds(f.At(w), RECEIVE_DATA, r, table);
    CopyUnfold(f, [r]);
    var one, rest := AppendPlan(f, r), CopyPlan(Exec(f, AppendPlan(f, r).ops), [r][1..]);
    ThenCut(f, one.Then(rest), All([Program(w, 0, VALID_PAGE), Erase(v)]), 1);
    ThenCut(f, one, rest, 1);
    var g := Step(d, table, Init(1)).flash;
    assert g == f.With(w, Torn(f.At(w), n, r));
    HoldsReceiving(f, g, table, v);
  }

  lemma {:induction false} ReceivingHolds(f: Flash, table: seq<HalfWord>, v: PageId)
    requires Receiving(f, table, v)
    ensures f.Shaped() && Holds(f.At(v.Other()), RECEIVE_DATA, table)
  {
  }

  lemma {:induction false} HoldsReceiving(f: Flash, g: Flash, table: seq<HalfWord>, v: PageId)
    requires Receiving(f, table, v) && g.At(v) == f.At(v) && Holds(g.At(v.Other()), RECEIVE_DATA, table)
    requires |g.At(v.Other())| == |f.At(v.Other())|
    ensures Receiving(g, table, v)
  {
  }

  /** And so on, until the new page is full. */
  lemma {:induction false} Tear(d: Device, table: seq<HalfWord>, v: PageId, r: Record, n: nat) returns (cs: seq<Call>)
    requires Begun(d, table, v, r, n) && n <= Slots(d.flash.page0)
    ensures OnlyInits(cs) && Begun(Run(d, table, cs), table, v, r, Slots(d.flash.page0))
    decreases Slots(d.flash.page0) - n
  {
    hide Sound, Begun, Step;
    BegunShape(d, table, v, r, n);
    if n == Slots(d.flash.page0) {
      cs := [];
    } else {
      var c := Init(1);
      TearOne(d, table, v, r, n);
      SameSize(d, table, c);
      var rest := Tear(Step(d, table, c), table, v, r, n + 1);
      cs := [c] + rest;
      assert cs[1..] == rest;
    }
  }

  lemma {:induction false} BegunShape(d: Device, table: seq<HalfWord>, v: PageId, r: Record, n: nat)
    requires Begun(d, table, v, r, n)
    ensures d.flash.Shaped()
  {
  }

  /** The room that is left decides whether EE_Init completes. */
  lemma {:induction false} BegunRoom(d: Device, table: seq<HalfWord>, v: PageId, r: Record, n: nat)
    requires Begun(d, table, v, r, n)
    ensures HasRoom(d.flash, table, v) <==> n < Slots(d.flash.page0)
    ensures CanResume(d.flash, table) <==> n < Slots(d.flash.page0)
    ensures Stuck(d.flash, table) <==> n == Slots(d.flash.page0)
  {
    hide Receiving, Mounted, Switched, Used, StoreOf, Survivors, Virgin, Doubled;
    OneSurvivor(table, r, ERASED);
    HeadersTell(d.flash, table);
    ReceivingUsed(d.flash, table, v);
  }

  /** Everything can be lost: a variable that has been written and read back is gone after a write cut
      after its first primitive, an EE_Init cut before its last one, and an EE_Init that completes. */
  lemma {:induction false} EverythingCanBeLost(f: Flash, table: seq<HalfWord>) returns (cs: seq<Call>, k: nat)
    requires Virgin(f) && GoodTable(table) && 0 < |table| < Slots(f.page0)
    ensures var was := Run(NewDeviceOn(f), table, cs);
            var e := Run(was, table, [Write(Record(table[0], 0), 1), Init(k), Init(3)]);
            && AllInTable(table, cs) && was.ready && e.ready
            && ReadBack(was.flash, table[0]) == Some(0)
            && forall tag :: tag != ERASED ==> ReadBack(e.flash, tag) == None
  {
    hide Sound, Run, Step, Begun, FullOfOne, ReadBack, Virgin, CanResume, Stuck, HasRoom, InitPlan, Settled,
         Committed, Deviates, AsAsked;
    var r := Record(table[0], 0);
    VirginShape(f);
    cs := Filled(f, table);
    var was := Run(NewDeviceOn(f), table, cs);
    FullReads(was, table, Page0, r);
    var d := Step(was, table, Write(r, 1));
    MarkOnly(was, table, Page0, r);
    BegunIsSound(d, table, Page0, r, 1);
    BegunRoom(d, table, Page0, r, 1);
    RunSize(NewDeviceOn(f), table, cs);
    SameSize(was, table, Write(r, 1));
    InitHasOps(d.flash, table);
    k := |InitPlan(d.flash, table).ops| - 1;
    WindowLosesAll(d, table, Init(k), 3);
    var x := Step(d, table, Init(k));
    InitKeeps(d, table, k);
    CompletedInitSettles(x, table, 3);
    var e := Step(x, table, Init(3));
    RunThree(was, table, Write(r, 1), Init(k), Init(3));
    forall tag | tag != ERASED
      ensures ReadBack(e.flash, tag) == None
    {
      SettledReads(e, table, tag);
    }
  }

  /** And come back: in the state between the two, where an EE_Init that is not cut would lose everything,
      one that is cut after its first primitive, and another one after it, restore the variable. */
  lemma {:induction false} LostCanComeBack(f: Flash, table: seq<HalfWord>) returns (cs: seq<Call>, k: nat)
    requires Virgin(f) && GoodTable(table) && 0 < |table| < Slots(f.page0)
    ensures var doubled := Run(Run(NewDeviceOn(f), table, cs), table, [Write(Record(table[0], 0), 1), Init(k)]);
            var lost, back := Step(doubled, table, Init(3)), Run(doubled, table, [Init(1), Init(1)]);
            && AllInTable(table, cs) && lost.ready && back.ready
            && ReadBack(lost.flash, table[0]) == None && ReadBack(back.flash, table[0]) == Some(0)
  {
    hide Sound, Run, Step, Begun, FullOfOne, ReadBack, Virgin, CanResume, Stuck, HasRoom, InitPlan, Settled, Committed,
         Deviates, AsAsked;
    var r := Record(table[0], 0);
    VirginShape(f);
    cs := Filled(f, table);
    var was := Run(NewDeviceOn(f), table, cs);
    var d := Step(was, table, Write(r, 1));
    MarkOnly(was, table, Page0, r);
    BegunIsSound(d, table, Page0, r, 1);
    BegunRoom(d, table, Page0, r, 1);
    RunSize(NewDeviceOn(f), table, cs);
    SameSize(was, table, Write(r, 1));
    InitHasOps(d.flash, table);
    k := |InitPlan(d.flash, table).ops| - 1;
    WindowLosesAll(d, table, Init(k), 3);
    var x := Step(d, table, Init(k));
    InitKeeps(d, table, k);
    CompletedInitSettles(x, table, 3);
    SettledReads(Step(x, table, Init(3)), table, table[0]);
    RunTwo(was, table, Write(r, 1), Init(k));
    RunTwo(x, table, Init(1), Init(1));
    CutInWindowLeaves(d, table, Page0, r, k);
    FormatCutLeaves(x, table, r);
  }

  /** In the window, the new page holds the store. */
  lemma {:induction false} CutInWindowLeaves(d: Device, table: seq<HalfWord>, v: PageId, r: Record, k: nat)
    requires Begun(d, table, v, r, 1) && 1 < Slots(d.flash.page0) && k == |InitPlan(d.flash, table).ops| - 1
    ensures var g := Step(d, table, Init(k)).flash;
            Doubled(g, table) && Get(StoreOf(g.At(v.Other())), r.tag) == Some(r.data)
  {
    hide Receiving, Mounted, Switched, Used, StoreOf, Survivors, Virgin, Doubled, Exec, Committed, Recoverable, HasRoom,
         ResumePlan, TagAt;
    var f := d.flash;
    BegunRoom(d, table, v, r, 1);
    ResumeInit(f, table, v);
    ResumeCut(f, table, v, 0);
    ResumeCut(f, table, v, k);
    ReceivingFacts(f, table, v);
    MergedAt(f.At(v.Other()), StoreOf(f.At(v)), r.tag);
  }

  /** Two valid pages: the format cut after its first primitive leaves page 1 in use. */
  lemma {:induction false} FormatCutLeaves(d: Device, table: seq<HalfWord>, r: Record)
    requires Sound(d, table) && Doubled(d.flash, table) && Get(StoreOf(d.flash.page1), r.tag) == Some(r.data)
    requires r.tag != ERASED
    ensures var e := Step(Step(d, table, Init(1)), table, Init(1)); e.ready && ReadBack(e.flash, r.tag) == Some(r.data)
  {
    hide Receiving, Mounted, Switched, Used, StoreOf, Virgin, Exec, Committed, AsAsked, Deviates, Unspoilt, InitPlan,
         Merged;
    var e := Step(d, table, Init(1));
    var blank := Erase(Page0);
    InitKeeps(d, table, 1);
    FormatCut(d.flash, table, 1);
    assert FORMAT_PLAN.ops[..1] == [blank];
    ExecOne(d.flash, blank);
    HeadersTell(d.flash, table);
    HeadersTell(e.flash, table);
    assert e.flash == Do(d.flash, blank) && e.flash.Header(Page0) == ERASED && e.flash.Header(Page1) == VALID_PAGE;
    assert Mounted(e.flash, table, Page1);
    TidyCut(e.flash, table, Page1, 1);
    assert [blank][..1] == [blank];
    SettledReads(e, table, r.tag);
  }

  lemma {:induction false} RunThree(d: Device, table: seq<HalfWord>, a: Call, b: Call, c: Call)
    requires d.flash.Shaped()
    ensures Run(d, table, [a, b, c]) == Step(Step(Step(d, table, a), table, b), table, c)
  {
    hide Step;
    assert [a, b, c][1..] == [b, c] && [b, c][1..] == [c];
    RunOne(Step(Step(d, table, a), table, b), table, c);
  }

  lemma {:induction false} BegunIsSound(d: Device, table: seq<HalfWord>, v: PageId, r: Record, n: nat)
    requires Begun(d, table, v, r, n)
    ensures Sound(d, table) && GoodTable(table) && d.flash.Shaped()
  {
  }

  lemma {:induction false} FullReads(d: Device, table: seq<HalfWord>, v: PageId, r: Record)
    requires FullOfOne(d, table, v, r)
    ensures d.flash.Shaped() && ReadBack(d.flash, r.tag) == Some(r.data)
  {
    hide Holds, StoreOf;
    MountedFacts(d.flash, table, v);
    SettledReads(d, table, r.tag);
  }

  /** A device can be stuck for good: after a write cut after its first primitive and recoveries that
      are cut after theirs, there is no room for EE_Init and no word for a write, so that writes are refused
      (and all of StuckForGood applies). */
  lemma {:induction false} DeviceCanBeStuck(f: Flash, table: seq<HalfWord>) returns (cs: seq<Call>,
                                            recoveries: seq<Call>)
    requires Virgin(f) && GoodTable(table) && 0 < |table| < Slots(f.page0)
    ensures AllInTable(table, cs) && OnlyInits(recoveries)
    ensures var was := Run(NewDeviceOn(f), table, cs);
            var e := Run(was, table, [Write(Record(table[0], 0), 1)] + recoveries);
            was.ready && Sound(e, table) && OutOfRoom(e.flash, table, Page0) && Refused(e.flash)
  {
    hide Sound, Run, Step, Begun, FullOfOne, Virgin, Stuck, Receiving, Refused, HasRoom;
    var r := Record(table[0], 0);
    VirginShape(f);
    cs := Filled(f, table);
    var was := Run(NewDeviceOn(f), table, cs);
    MarkOnly(was, table, Page0, r);
    var d := Step(was, table, Write(r, 1));
    RunSize(NewDeviceOn(f), table, cs);
    SameSize(was, table, Write(r, 1));
    recoveries := Tear(d, table, Page0, r, 1);
    RunOne(was, table, Write(r, 1));
    RunConcat(was, table, [Write(r, 1)], recoveries);
    RunSize(d, table, recoveries);
    var e := Run(d, table, recoveries);
    BegunIsSound(e, table, Page0, r, Slots(d.flash.page0));
    BegunRoom(e, table, Page0, r, Slots(d.flash.page0));
    BegunRefuses(e, table, Page0, r);
  }

  lemma {:induction false} BegunRefuses(d: Device, table: seq<HalfWord>, v: PageId, r: Record)
    requires d.flash.Shaped() && Begun(d, table, v, r, Slots(d.flash.page0))
    ensures Receiving(d.flash, table, v) && Refused(d.flash)
  {
    ReceivingFacts(d.flash, table, v);
  }

  lemma {:induction false} RunTwo(d: Device, table: seq<HalfWord>, a: Call, b: Call)
    requires d.flash.Shaped()
    ensures Run(d, table, [a, b]) == Step(Step(d, table, a), table, b)
  {
    hide Step;
    assert [a, b][1..] == [b];
    RunOne(Step(d, table, a), table, b);
  }

  /** A write to the transfer's one variable completes and is outvoted, and there is still room. */
  lemma {:induction false} EarlyOnBegun(d: Device, table: seq<HalfWord>, v: PageId, r0: Record,
                                        r: Record) returns (k: nat)
    requires Begun(d, table, v, r0, 2) && Slots(d.flash.page0) >= 4 && r.tag == r0.tag
    ensures var f, e := d.flash, Step(d, table, Write(r, 2));
            && Receiving(f, table, v) && !Refused(f)
            && Used(f.At(v.Other())) > 1 && r.tag in StoreOf(f.At(v)) && StoreOf(f.At(v))[r.tag] == r0.data
            && r.tag != TagAt(f.At(v.Other()), 1) && ReadBack(f, r.tag) == Some(r0.data)
            && NeverDeviates(e, table, [] + [Init(k)]) && Run(e, table, [] + [Init(k)]).ready
  {
    hide Mounted, Switched, Receiving, Used, AsAsked, Deviates, Unspoilt, StoreOf, Doubled, Survivors, Exec, Virgin,
         WritePlan, InitPlan, TagAt, Committed, Merged;
    var f := d.flash;
    var e := Step(d, table, Write(r, 2));
    var g := e.flash;
    ReceivingFacts(f, table, v);
    ReadBackIsStore(f, r.tag);
    EarlyCut(f, table, v, r, 0);
    EarlyCut(f, table, v, r, 2);
    WriteKeeps(d, table, r, 2);
    OneSurvivor(table, r0, TagAt(g.At(v.Other()), 1));
    HeadersTell(g, table);
    assert !Stuck(g, table);
    k := |InitPlan(g, table).ops|;
    var c := Init(k);
    assert [] + [c] == [c] && [c][1..] == [];
    InitCut(g, table, k);
    RunOne(e, table, c);
    NotDeviating(g, table, k);
  }

  /** An EE_Init that is not cut deviates from nothing. */
  lemma {:induction false} NotDeviating(f: Flash, table: seq<HalfWord>, k: nat)
    requires f.Shaped() && !Doubled(f, table) && k >= |InitPlan(f, table).ops|
    ensures !Deviates(f, table, Init(k))
  {
  }

  /** A completed write can be undone: a variable reads 0, a write of 1 to it returns FLASH_COMPLETE, and so
      does the EE_Init after it, but the variable then reads 0 again. */
  lemma {:induction false} WriteCanBeUndone(f: Flash, table: seq<HalfWord>) returns (cs: seq<Call>, r: Record, k: nat)
    requires Virgin(f) && GoodTable(table) && 0 < |table| < Slots(f.page0) && Slots(f.page0) >= 4
    ensures var was := Run(NewDeviceOn(f), table, cs);
            var written := Step(was, table, Write(r, 2));
            var e := Step(written, table, Init(k));
            && AllInTable(table, cs + [Write(r, 2)])
            && written.ready && e.ready
            && r.data == 1 && ReadBack(was.flash, r.tag) == ReadBack(e.flash, r.tag) == Some(0)
  {
    hide Sound, Run, Step, Begun, FullOfOne, ReadBack, Virgin, Stuck, HasRoom, InitPlan, Deviates, NeverDeviates;
    var r0 := Record(table[0], 0);
    r := Record(table[0], 1);
    VirginShape(f);
    var fill := Filled(f, table);
    var full := Run(NewDeviceOn(f), table, fill);
    MarkOnly(full, table, Page0, r0);
    RunSize(NewDeviceOn(f), table, fill);
    SameSize(full, table, Write(r0, 1));
    var marked := Step(full, table, Write(r0, 1));
    TearOne(marked, table, Page0, r0, 1);
    SameSize(marked, table, Init(1));
    var was := Step(marked, table, Init(1));
    var two := [Write(r0, 1), Init(1)];
    cs := fill + two;
    RunConcat(NewDeviceOn(f), table, fill, two);
    RunTwo(full, table, two[0], two[1]);
    var written := Step(was, table, Write(r, 2));
    BegunIsSound(was, table, Page0, r0, 2);
    k := EarlyOnBegun(was, table, Page0, r0, r);
    assert [] + [Init(k)] == [Init(k)];
    RunOne(written, table, Init(k));
    EarlyWriteIsLost(was, table, Page0, r, [], k);
  }
}
