/** Whole runs: any number of EE_WriteVariable and EE_Init calls, in any order, each cut at any
    primitive. */
module EepromRuns {
  import opened Basics
  import opened FlashMemory
  import opened PageLog
  import opened EepromPlan
  import opened EepromPhases
  import opened EepromRecovery
  import opened EepromCrash
  import opened EepromEarlyWrite
  import opened EepromLegal

  /** A call of which only the first `cut` primitives happen (all of them, if it has fewer): the power
      failed, or the flash refused the next one. */
  datatype Call =
    | Write(r: Record, cut: nat)
    | Init(cut: nat)

  /** The flash between two calls, whether the last call completed, and how many calls have found or
      left the page receiving that is receiving now. */
  datatype Device = Device(flash: Flash, ready: bool, passes: nat)

  function PlanOf(f: Flash, table: seq<HalfWord>, c: Call): Plan
    requires f.Shaped()
  {
    match c
    case Write(r, _) => WritePlan(f, table, r)
    case Init(_) => InitPlan(f, table)
  }

  function Reached(ops: seq<Primitive>, cut: nat): nat {
    if cut < |ops| then cut else |ops|
  }

  predicate Completes(f: Flash, table: seq<HalfWord>, c: Call)
    requires f.Shaped()
  {
    c.cut >= |PlanOf(f, table, c).ops| && PlanOf(f, table, c).final == FLASH_COMPLETE
  }

  predicate UnderWay(f: Flash)
    requires f.Shaped()
  {
    {f.Header(Page0), f.Header(Page1)} == {VALID_PAGE, RECEIVE_DATA}
  }

  /** One page is valid, the other erased. */
  predicate Settled(f: Flash)
    requires f.Shaped()
  {
    {f.Header(Page0), f.Header(Page1)} == {VALID_PAGE, ERASED}
  }

  function Step(d: Device, table: seq<HalfWord>, c: Call): (e: Device)
    requires d.flash.Shaped()
    ensures e.flash.Shaped()
  {
    var plan := PlanOf(d.flash, table, c);
    var g := Exec(d.flash, plan.ops[..Reached(plan.ops, c.cut)]);
    Device(g, Completes(d.flash, table, c), if UnderWay(g) then d.passes + 1 else 0)
  }

  function Run(d: Device, table: seq<HalfWord>, cs: seq<Call>): (e: Device)
    requires d.flash.Shaped()
    ensures e.flash.Shaped()
    decreases |cs|
  {
    if cs == [] then d else Run(Step(d, table, cs[0]), table, cs[1..])
  }

  lemma {:induction false} RunConcat(d: Device, table: seq<HalfWord>, a: seq<Call>, b: seq<Call>)
    requires d.flash.Shaped()
    ensures Run(d, table, a + b) == Run(Run(d, table, a), table, b)
    decreases |a|
  {
    if a == [] {
      assert a + b == b;
    } else {
      assert (a + b)[0] == a[0] && (a + b)[1..] == a[1..] + b;
      RunConcat(Step(d, table, a[0]), table, a[1..], b);
    }
  }

  lemma {:induction false} RunOne(d: Device, table: seq<HalfWord>, c: Call)
    requires d.flash.Shaped()
    ensures Run(d, table, [c]) == Step(d, table, c)
  {
    assert [c][1..] == [] && Run(Step(d, table, c), table, []) == Step(d, table, c);
  }

  predicate KnownHeaders(f: Flash)
    requires f.Shaped()
  {
    {f.Header(Page0), f.Header(Page1)} <= {ERASED, RECEIVE_DATA, VALID_PAGE}
  }

  predicate InTable(table: seq<HalfWord>, c: Call) {
    c.Write? ==> c.r.tag in table
  }

  predicate AllInTable(table: seq<HalfWord>, cs: seq<Call>) {
    forall c :: c in cs ==> InTable(table, c)
  }

  /** EE_Init completing a transfer is cut after it marked the new page valid and before it erased
      the old one. */
  ghost predicate CutInWindow(f: Flash, table: seq<HalfWord>, c: Call)
    requires f.Shaped()
  {
    c.Init? && CanResume(f, table) && c.cut == |InitPlan(f, table).ops| - 1
  }

  /** The calls that do to the store what no caller asked for: an EE_Init cut in the window, which
      loses everything; one cut right after the first erase of the format that answers two valid pages,
      which brings page 1 back; and a write that completes although it is going to be overruled. */
  ghost predicate Deviates(f: Flash, table: seq<HalfWord>, c: Call)
    requires f.Shaped()
  {
    match c
    case Init(cut) =>
      || (CutInWindow(f, table, c) && Committed(f) != map[])
      || (Doubled(f, table) && cut == 1 && StoreOf(f.page1) != map[])
    case Write(r, cut) => cut >= 2 && Overruled(f, r)
  }

  ghost predicate NeverDeviates(d: Device, table: seq<HalfWord>, cs: seq<Call>)
    requires d.flash.Shaped()
    decreases |cs|
  {
    cs == [] || (!Deviates(d.flash, table, cs[0]) && NeverDeviates(Step(d, table, cs[0]), table, cs[1..]))
  }

  /** `after` is `before` with the completed writes of the run, and for each interrupted write either
      all of it or nothing. */
  predicate Explains(d: Device, table: seq<HalfWord>, cs: seq<Call>, before: Store, after: Store)
    requires d.flash.Shaped()
    decreases |cs|
  {
    if cs == [] then after == before
    else
      var e := Step(d, table, cs[0]);
      match cs[0]
      case Init(_) => Explains(e, table, cs[1..], before, after)
      case Write(r, _) =>
        || Explains(e, table, cs[1..], before[r.tag := r.data], after)
        || (!e.ready && Explains(e, table, cs[1..], before, after))
  }

  /** The call changes the store as it should. */
  predicate AsAsked(d: Device, table: seq<HalfWord>, c: Call)
    requires d.flash.Shaped()
  {
    Explains(d, table, [c], Committed(d.flash), Committed(Step(d, table, c).flash))
  }

  predicate AlwaysAsAsked(d: Device, table: seq<HalfWord>, cs: seq<Call>)
    requires d.flash.Shaped()
    decreases |cs|
  {
    cs == [] || (AsAsked(d, table, cs[0]) && AlwaysAsAsked(Step(d, table, cs[0]), table, cs[1..]))
  }

  /** What holds between calls.  A page that is receiving has used no more words than one per variable
      and pass. */
  ghost predicate Sound(d: Device, table: seq<HalfWord>) {
    && GoodTable(table) && d.flash.Shaped() && |table| < Slots(d.flash.page0)
    && (Recoverable(d.flash, table) || Doubled(d.flash, table))
    && (UnderWay(d.flash) <==> d.passes > 0)
    && (forall v :: Receiving(d.flash, table, v) ==> Used(d.flash.At(v.Other())) <= 1 + d.passes * |table|)
  }

  /** If a page is receiving, no write has intruded on it. */
  ghost predicate Unspoilt(f: Flash, table: seq<HalfWord>) {
    forall v :: Receiving(f, table, v) ==> Interrupted(f, table, v)
  }

  /** What a call keeps. */
  ghost predicate Keeps(d: Device, table: seq<HalfWord>, c: Call)
    requires d.flash.Shaped()
  {
    var e := Step(d, table, c);
    && Sound(e, table)
    && (AsAsked(d, table, c) <==> !Deviates(d.flash, table, c))
    && (Unspoilt(d.flash, table) && !(c.Write? && UnderWay(d.flash)) ==> Unspoilt(e.flash, table))
  }

  lemma {:induction false} AskedOf(d: Device, table: seq<HalfWord>, c: Call)
    requires d.flash.Shaped()
    ensures var e := Step(d, table, c);
            AsAsked(d, table, c) <==>
            match c
            case Init(_) => Committed(e.flash) == Committed(d.flash)
            case Write(r, _) => || Committed(e.flash) == Committed(d.flash)[r.tag := r.data]
                                || (!e.ready && Committed(e.flash) == Committed(d.flash))
  {
    hide Step, Committed;
    var e := Step(d, table, c);
    var before, after := Committed(d.flash), Committed(e.flash);
    assert [c][1..] == [] && [c][0] == c;
    assert Explains(e, table, [], before, after) <==> after == before;
    match c
    case Init(_) =>
      assert Explains(d, table, [c], before, after) <==> Explains(e, table, [], before, after);
    case Write(r, _) =>
      assert Explains(e, table, [], before[r.tag := r.data], after) <==> after == before[r.tag := r.data];
  }

  lemma {:induction false} MountedWrite(d: Device, table: seq<HalfWord>, v: PageId, r: Record, cut: nat)
    requires Sound(d, table) && Mounted(d.flash, table, v) && r.tag in table
    ensures Keeps(d, table, Write(r, cut))
  {
    hide Virgin, Mounted, Switched, Receiving, Doubled, Committed, Exec, WritePlan, Used, AsAsked, Faithful;
    var f, c := d.flash, Write(r, cut);
    HeadersTell(f, table);
    AskedOf(d, table, c);
    var plan := WritePlan(f, table, r);
    var g := Step(d, table, c).flash;
    WriteCut(f, table, v, r, Reached(plan.ops, cut));
    HeadersTell(g, table);
    if Interrupted(g, table, v) {
      InterruptedReceives(g, table, v);
    }
  }

  lemma {:induction false} EarlyWrite(d: Device, table: seq<HalfWord>, v: PageId, r: Record, cut: nat)
    requires Sound(d, table) && Receiving(d.flash, table, v) && r.tag in table
    ensures Keeps(d, table, Write(r, cut))
  {
    hide Virgin, Mounted, Switched, Receiving, Doubled, Committed, Exec, WritePlan, Used, AsAsked, Faithful, ReadPage,
         WritePage, StoreOf, Merged;
    var f, c := d.flash, Write(r, cut);
    HeadersTell(f, table);
    AskedOf(d, table, c);
    var plan := WritePlan(f, table, r);
    var g := Step(d, table, c).flash;
    EarlyCut(f, table, v, r, Reached(plan.ops, cut));
    ReceivingFacts(f, table, v);
    HeadersTell(g, table);
    var m := StoreOf(f.At(v));
    if Outvoted(f.At(v.Other()), m, r) {
      assert Merged(f.At(v.Other()), m)[r.tag] == m[r.tag] by {
        MergedAt(f.At(v.Other()), m, r.tag);
      }
      assert (Committed(f)[r.tag := r.data])[r.tag] == r.data;
    }
    assert (d.passes + 1) * |table| == d.passes * |table| + |table|;
  }

  lemma {:induction false} MergedAt(p: Page, m: Store, tag: HalfWord)
    requires Slots(p) >= 2 && tag in m && tag != TagAt(p, 1)
    ensures tag in Merged(p, m) && Merged(p, m)[tag] == m[tag]
  {
  }

  lemma {:induction false} DoubledWrite(d: Device, table: seq<HalfWord>, r: Record, cut: nat)
    requires Sound(d, table) && Doubled(d.flash, table) && r.tag in table
    ensures Keeps(d, table, Write(r, cut))
  {
    hide Virgin, Mounted, Switched, Receiving, Doubled, Committed, Exec, WritePlan, Used, AsAsked, Faithful, ReadPage,
         WritePage, StoreOf, Merged;
    var f, c := d.flash, Write(r, cut);
    HeadersTell(f, table);
    AskedOf(d, table, c);
    DoubledCut(f, table, r, Reached(WritePlan(f, table, r).ops, cut));
    HeadersTell(Step(d, table, c).flash, table);
    assert r.tag in Committed(f)[r.tag := r.data];
  }

  lemma {:induction false} IdleWrite(d: Device, table: seq<HalfWord>, r: Record, cut: nat)
    requires Sound(d, table) && (Virgin(d.flash) || Switched(d.flash, table, Page0) || Switched(d.flash, table, Page1))
    ensures Keeps(d, table, Write(r, cut))
  {
    hide Virgin, Mounted, Switched, Receiving, Doubled, Committed, Exec, WritePlan, Used, AsAsked, Faithful, ReadPage,
         WritePage;
    var f, c := d.flash, Write(r, cut);
    HeadersTell(f, table);
    AskedOf(d, table, c);
    NowhereToWrite(f, table, r);
    ExecNothing(f);
  }

  lemma {:induction false} WriteKeeps(d: Device, table: seq<HalfWord>, r: Record, cut: nat)
    requires Sound(d, table) && r.tag in table
    ensures Keeps(d, table, Write(r, cut))
  {
    hide Virgin, Mounted, Switched, Receiving, Doubled, Keeps;
    if v: PageId :| Mounted(d.flash, table, v) {
      MountedWrite(d, table, v, r, cut);
    } else if v: PageId :| Receiving(d.flash, table, v) {
      EarlyWrite(d, table, v, r, cut);
    } else if Doubled(d.flash, table) {
      DoubledWrite(d, table, r, cut);
    } else {
      IdleWrite(d, table, r, cut);
    }
  }

  /** EE_Init never begins a transfer, and one pass of it uses up at most one word per variable. */
  lemma {:induction false} InitProgress(f: Flash, table: seq<HalfWord>, k: nat, w: PageId)
    requires f.Shaped() && (Recoverable(f, table) || Doubled(f, table)) && GoodTable(table)
    requires k <= |InitPlan(f, table).ops|
    requires Receiving(Exec(f, InitPlan(f, table).ops[..k]), table, w)
    ensures var g := Exec(f, InitPlan(f, table).ops[..k]);
            && Receiving(f, table, w) && (Interrupted(f, table, w) ==> Interrupted(g, table, w))
            && Used(g.At(w.Other())) <= Used(f.At(w.Other())) + |table|
  {
    hide Virgin, Mounted, Switched, Receiving, Doubled, Exec, InitPlan, Used, Survivors, HasRoom, Committed, TagAt,
         Faithful;
    var g := Exec(f, InitPlan(f, table).ops[..k]);
    HeadersTell(f, table);
    HeadersTell(g, table);
    if v: PageId :| Mounted(f, table, v) {
      TidyCut(f, table, v, 0);
      TidyCut(f, table, v, k);
    } else if v: PageId :| Switched(f, table, v) {
      PromoteCut(f, table, v, 0);
      PromoteCut(f, table, v, k);
    } else if v: PageId :| Receiving(f, table, v) {
      ResumeInit(f, table, v);
      ResumeCut(f, table, v, k);
      MissingAtMost(f, table, v);
    } else {
      FormatCut(f, table, 0);
      FormatCut(f, table, k);
    }
  }

  lemma {:induction false} MissingAtMost(f: Flash, table: seq<HalfWord>, v: PageId)
    requires f.Shaped() && GoodTable(table)
    ensures Missing(f, table, v) <= |table|
  {
    SurvivorsAre(table, 0, StoreOf(f.At(v)), TagAt(f.At(v.Other()), 1));
  }

  lemma {:induction false} InitKeeps(d: Device, table: seq<HalfWord>, cut: nat)
    requires Sound(d, table)
    ensures Keeps(d, table, Init(cut))
  {
    hide Virgin, Mounted, Switched, Receiving, Interrupted, Doubled, Exec, InitPlan, Used, HasRoom, Committed,
         AsAsked, StoreOf;
    var f, c := d.flash, Init(cut);
    var k := Reached(InitPlan(f, table).ops, cut);
    var g := Step(d, table, c).flash;
    AskedOf(d, table, c);
    HeadersTell(f, table);
    HeadersTell(g, table);
    InitCut(f, table, k);
    InitDeviates(f, table, cut);
    forall w | Receiving(g, table, w)
      ensures Receiving(f, table, w) && (Interrupted(f, table, w) ==> Interrupted(g, table, w))
      ensures Used(g.At(w.Other())) <= 1 + (d.passes + 1) * |table|
    {
      InitProgress(f, table, k, w);
    }
  }

  /** When a cut of EE_Init changes the store. */
  lemma {:induction false} InitDeviates(f: Flash, table: seq<HalfWord>, cut: nat)
    requires f.Shaped() && (Recoverable(f, table) || Doubled(f, table)) && GoodTable(table)
    ensures var ops := InitPlan(f, table).ops;
            Committed(Exec(f, ops[..Reached(ops, cut)])) == Committed(f) <==> !Deviates(f, table, Init(cut))
  {
    hide Virgin, Mounted, Switched, Receiving, Exec, InitPlan, Used, HasRoom, Merged, StoreOf, Holds;
    var ops := InitPlan(f, table).ops;
    var k := Reached(ops, cut);
    HeadersTell(f, table);
    HeadersTell(Exec(f, ops[..k]), table);
    InitCut(f, table, k);
    if Doubled(f, table) {
      FormatCut(f, table, 0);
      FormatCut(f, table, k);
    } else if CanResume(f, table) {
      InitHasOps(f, table);
    }
  }

  lemma {:induction false} InitHasOps(f: Flash, table: seq<HalfWord>)
    requires f.Shaped() && GoodTable(table) && CanResume(f, table)
    ensures |InitPlan(f, table).ops| >= 2
  {
    var v :| Receiving(f, table, v) && HasRoom(f, table, v);
    ResumeInit(f, table, v);
    ResumeCut(f, table, v, 0);
  }

  lemma {:induction false} CallKeeps(d: Device, table: seq<HalfWord>, c: Call)
    requires Sound(d, table) && InTable(table, c)
    ensures Keeps(d, table, c)
  {
    match c
    case Init(cut) => InitKeeps(d, table, cut);
    case Write(r, cut) => WriteKeeps(d, table, r, cut);
  }

  lemma {:induction false} SoundShape(d: Device, table: seq<HalfWord>)
    requires Sound(d, table)
    ensures d.flash.Shaped()
  {
  }

  /** Whatever calls are made, in whatever order, and wherever each of them is cut, the flash stays in
      one of the phases; in particular its headers stay known. */
  lemma {:induction false} RunsStaySound(d: Device, table: seq<HalfWord>, cs: seq<Call>)
    requires Sound(d, table) && AllInTable(table, cs)
    ensures Sound(Run(d, table, cs), table) && KnownHeaders(Run(d, table, cs).flash)
    decreases |cs|
  {
    hide Sound, Step, Deviates;
    if cs == [] {
      HeadersKnown(d, table);
    } else {
      SoundShape(d, table);
      CallKeeps(d, table, cs[0]);
      RunsStaySound(Step(d, table, cs[0]), table, cs[1..]);
    }
  }

  lemma {:induction false} HeadersKnown(d: Device, table: seq<HalfWord>)
    requires Sound(d, table)
    ensures KnownHeaders(d.flash)
  {
    hide Virgin, Mounted, Switched, Receiving, Doubled;
    HeadersTell(d.flash, table);
  }

  /** Crash atomicity.  Whatever calls are made, in whatever order, and wherever each of them is cut,
      if none of them deviates the flash stands for exactly the completed writes, each interrupted one
      wholly there or wholly absent. */
  lemma {:induction false} CrashAtomicity(d: Device, table: seq<HalfWord>, cs: seq<Call>)
    requires Sound(d, table) && AllInTable(table, cs) && NeverDeviates(d, table, cs)
    ensures Explains(d, table, cs, Committed(d.flash), Committed(Run(d, table, cs).flash))
    decreases |cs|
  {
    hide Sound, Committed, Step, Deviates;
    SoundShape(d, table);
    if cs != [] {
      CallKeeps(d, table, cs[0]);
      AskedOf(d, table, cs[0]);
      CrashAtomicity(Step(d, table, cs[0]), table, cs[1..]);
    }
  }

  /** And nothing less will do: in every run, all calls do as asked exactly if none of them deviates. */
  lemma {:induction false} ExactlyTheDeviations(d: Device, table: seq<HalfWord>, cs: seq<Call>)
    requires Sound(d, table) && AllInTable(table, cs)
    ensures AlwaysAsAsked(d, table, cs) <==> NeverDeviates(d, table, cs)
    decreases |cs|
  {
    hide Sound, Committed, Step, Deviates, AsAsked;
    SoundShape(d, table);
    if cs != [] {
      CallKeeps(d, table, cs[0]);
      ExactlyTheDeviations(Step(d, table, cs[0]), table, cs[1..]);
    }
  }

  /** No write has intruded on a transfer as long as none is made while one is under way. */
  predicate NoEarlyWrite(d: Device, table: seq<HalfWord>, cs: seq<Call>)
    requires d.flash.Shaped()
    decreases |cs|
  {
    cs == [] || (!(cs[0].Write? && UnderWay(d.flash)) && NoEarlyWrite(Step(d, table, cs[0]), table, cs[1..]))
  }

  /** In runs without early writes, in every interrupted transfer each record after record 1 repeats
      the old page's value and is not about record 1's variable, so the transfer stands for the old
      store overridden by record 1. */
  lemma {:induction false} TransfersStayFaithful(d: Device, table: seq<HalfWord>, cs: seq<Call>)
    requires Sound(d, table) && AllInTable(table, cs) && NoEarlyWrite(d, table, cs) && Unspoilt(d.flash, table)
    ensures var f := Run(d, table, cs).flash;
            forall v :: Receiving(f, table, v) ==>
              && Faithful(f.At(v.Other()), StoreOf(f.At(v)))
              && Committed(f) == StoreOf(f.At(v)) + FirstRecord(f.At(v.Other()))
    decreases |cs|
  {
    hide Sound, Committed, Step, Deviates, Receiving, Faithful, Merged, FirstRecord, StoreOf, AsAsked;
    SoundShape(d, table);
    if cs != [] {
      CallKeeps(d, table, cs[0]);
      TransfersStayFaithful(Step(d, table, cs[0]), table, cs[1..]);
    } else {
      var f := d.flash;
      forall v | Receiving(f, table, v)
        ensures Faithful(f.At(v.Other()), StoreOf(f.At(v)))
        ensures Committed(f) == StoreOf(f.At(v)) + FirstRecord(f.At(v.Other()))
      {
        SoundTable(d, table);
        ReceivingFacts(f, table, v);
        ErasedHasNoValue(f, table, v);
        FaithfulMeans(f.At(v.Other()), StoreOf(f.At(v)));
      }
    }
  }

  lemma {:induction false} SoundTable(d: Device, table: seq<HalfWord>)
    requires Sound(d, table)
    ensures GoodTable(table)
  {
  }

  /** What the reader finds. */
  function ReadBack(f: Flash, tag: HalfWord): Option<HalfWord>
    requires f.Shaped()
  {
    match ReadPage(f)
    case None => None
    case Some(v) => Lookup(f.At(v), tag, Slots(f.At(v)))
  }

  /** The page that reads are served from decides. */
  lemma {:induction false} ReadBackIsStore(f: Flash, tag: HalfWord)
    requires f.Shaped() && ReadPage(f).Some? && tag != ERASED
    ensures ReadBack(f, tag) == Get(StoreOf(f.At(ReadPage(f).value)), tag)
  {
    BackwardReadIsForwardReplay(f.At(ReadPage(f).value), tag, Slots(f.At(ReadPage(f).value)));
  }

  /** When one page is valid and the other erased, reads and writes use the valid one, the other one is
      blank, and reading any variable gives what the store says. */
  lemma {:induction false} SettledReads(d: Device, table: seq<HalfWord>, tag: HalfWord)
    requires Sound(d, table) && Settled(d.flash) && tag != ERASED
    ensures var f := d.flash;
            && ReadBack(f, tag) == Get(Committed(f), tag)
            && ReadPage(f).Some? && WritePage(f) == ReadPage(f)
            && var v := ReadPage(f).value;
            && f.Header(v) == VALID_PAGE && IsBlank(f.At(v.Other())) && StoreOf(f.At(v)) == Committed(f)
  {
    hide Virgin, Switched, Receiving, Doubled, Committed, Holds;
    var f := d.flash;
    HeadersTell(f, table);
    var v: PageId :| Mounted(f, table, v);
    MountedFacts(f, table, v);
    ReadBackIsStore(f, tag);
  }

  /** EE_Init completes only on a settled flash. */
  lemma {:induction false} CompletedInitSettles(d: Device, table: seq<HalfWord>, cut: nat)
    requires Sound(d, table) && Step(d, table, Init(cut)).ready
    ensures var e := Step(d, table, Init(cut)); Sound(e, table) && Settled(e.flash)
  {
    hide Virgin, Mounted, Switched, Receiving, Doubled, Committed, Exec, InitPlan, HasRoom, AsAsked, Deviates, Unspoilt;
    var f := d.flash;
    InitKeeps(d, table, cut);
    InitCut(f, table, Reached(InitPlan(f, table).ops, cut));
    HeadersTell(Step(d, table, Init(cut)).flash, table);
  }

  /** A new device, its flash erased, is sound and empty. */
  lemma {:induction false} NewDevice(f: Flash, table: seq<HalfWord>)
    requires Virgin(f) && GoodTable(table) && |table| < Slots(f.page0)
    ensures Sound(Device(f, false, 0), table) && Committed(f) == map[] && Unspoilt(f, table)
  {
    hide Mounted, Switched, Receiving, Used;
    HeadersTell(f, table);
    FormatCut(f, table, 0);
  }

  /** A run that ends with a completed EE_Init: reads see exactly the store. */
  lemma {:induction false} RecoveredReads(d: Device, table: seq<HalfWord>, cs: seq<Call>, cut: nat)
    requires Sound(d, table) && AllInTable(table, cs) && Run(d, table, cs + [Init(cut)]).ready
    ensures var g := Run(d, table, cs + [Init(cut)]).flash;
            && ReadPage(g).Some? && StoreOf(g.At(ReadPage(g).value)) == Committed(g)
            && forall tag :: tag != ERASED ==> ReadBack(g, tag) == Get(Committed(g), tag)
  {
    hide Sound, Committed, Step, Run, ReadBack, Settled, StoreOf;
    SoundShape(d, table);
    RunConcat(d, table, cs, [Init(cut)]);
    RunsStaySound(d, table, cs);
    var last := Run(d, table, cs);
    RunOne(last, table, Init(cut));
    CompletedInitSettles(last, table, cut);
    var e := Step(last, table, Init(cut));
    SettledReads(e, table, 0);
    forall tag | tag != ERASED
      ensures ReadBack(e.flash, tag) == Get(Committed(e.flash), tag)
    {
      SettledReads(e, table, tag);
    }
  }

  /** Power-loss safety, from an erased flash.  After any run that does not deviate and ends with a
      completed EE_Init, every variable reads as the completed writes say, with each interrupted write
      wholly present or wholly absent. */
  lemma {:induction false} PowerLossSafety(f: Flash, table: seq<HalfWord>, cs: seq<Call>, cut: nat)
    requires Virgin(f) && GoodTable(table) && |table| < Slots(f.page0) && AllInTable(table, cs)
    requires var d, all := Device(f, false, 0), cs + [Init(cut)];
             NeverDeviates(d, table, all) && Run(d, table, all).ready
    ensures var d, all := Device(f, false, 0), cs + [Init(cut)];
            var g := Run(d, table, all).flash;
            exists m :: Explains(d, table, all, map[], m)
                    && forall tag :: tag != ERASED ==> ReadBack(g, tag) == Get(m, tag)
  {
    hide Sound, Committed, Step, NeverDeviates, Run, Explains, Virgin, ReadBack;
    var d := Device(f, false, 0);
    NewDevice(f, table);
    SoundShape(d, table);
    CrashAtomicity(d, table, cs + [Init(cut)]);
    RecoveredReads(d, table, cs, cut);
  }

  predicate OnlyInits(cs: seq<Call>) {
    forall c :: c in cs ==> c.Init?
  }

  lemma {:induction false} InitsExplain(d: Device, table: seq<HalfWord>, cs: seq<Call>, before: Store, after: Store)
    requires d.flash.Shaped() && OnlyInits(cs)
    ensures Explains(d, table, cs, before, after) <==> after == before
    decreases |cs|
  {
    hide Step;
    if cs != [] {
      assert cs[0] in cs;
      InitsExplain(Step(d, table, cs[0]), table, cs[1..], before, after);
    }
  }

  /** Recoveries that do not deviate, cut anywhere, until one completes: reads then see the store that
      was there before them. */
  lemma {:induction false} RecoveriesRead(d: Device, table: seq<HalfWord>, cs: seq<Call>, cut: nat)
    requires Sound(d, table) && OnlyInits(cs)
    requires NeverDeviates(d, table, cs + [Init(cut)]) && Run(d, table, cs + [Init(cut)]).ready
    ensures var g := Run(d, table, cs + [Init(cut)]).flash;
            && ReadPage(g).Some? && StoreOf(g.At(ReadPage(g).value)) == Committed(d.flash)
            && forall tag :: tag != ERASED ==> ReadBack(g, tag) == Get(Committed(d.flash), tag)
  {
    hide Sound, Committed, Step, NeverDeviates, Run, Explains, ReadBack, StoreOf;
    SoundShape(d, table);
    RecoveredReads(d, table, cs, cut);
    CrashAtomicity(d, table, cs + [Init(cut)]);
    InitsExplain(d, table, cs + [Init(cut)], Committed(d.flash), Committed(Run(d, table, cs + [Init(cut)]).flash));
  }

  /** Exactly when a call spoils the store, in terms of what is read in the end.  Any call, cut
      anywhere, then recoveries that do not deviate, cut anywhere, until one completes: all reads see a
      store that these calls explain if and only if the call did not deviate. */
  lemma {:induction false} SpoiltExactlyByDeviations(d: Device, table: seq<HalfWord>, c: Call, cs: seq<Call>, cut: nat)
    requires Sound(d, table) && InTable(table, c) && OnlyInits(cs)
    requires var e := Step(d, table, c);
             NeverDeviates(e, table, cs + [Init(cut)]) && Run(e, table, cs + [Init(cut)]).ready
    ensures var all := [c] + (cs + [Init(cut)]);
            var g := Run(d, table, all).flash;
            && ReadPage(g).Some?
            && (Explains(d, table, all, Committed(d.flash), StoreOf(g.At(ReadPage(g).value)))
                <==> !Deviates(d.flash, table, c))
  {
    hide Sound, Committed, Step, NeverDeviates, Run, StoreOf, Deviates, ReadBack;
    SoundShape(d, table);
    CallKeeps(d, table, c);
    AskedOf(d, table, c);
    var e, recovery := Step(d, table, c), cs + [Init(cut)];
    var all, after := [c] + recovery, Committed(e.flash);
    assert all[0] == c && all[1..] == recovery;
    RunConcat(d, table, [c], recovery);
    RunOne(d, table, c);
    RecoveriesRead(e, table, cs, cut);
    InitsExplain(e, table, recovery, Committed(d.flash), after);
    match c
    case Init(_) =>
    case Write(r, _) => InitsExplain(e, table, recovery, Committed(d.flash)[r.tag := r.data], after);
  }

  /** What becomes of a write that completes while a transfer is under way, once EE_Init has recovered:
      it is there unless the old page has a value for its variable and record 1 of the new page is
      there and is another variable's; then the variable falls back to that value. */
  lemma {:induction false} EarlyWriteIsLost(d: Device, table: seq<HalfWord>, v: PageId, r: Record, cs: seq<Call>,
                                            cut: nat)
    requires Sound(d, table) && Receiving(d.flash, table, v) && !Refused(d.flash) && r.tag in table && OnlyInits(cs)
    requires var e := Step(d, table, Write(r, 2));
             NeverDeviates(e, table, cs + [Init(cut)]) && Run(e, table, cs + [Init(cut)]).ready
    ensures var e := Step(d, table, Write(r, 2));
            var p, m := d.flash.At(v.Other()), StoreOf(d.flash.At(v));
            && e.ready
            && ReadBack(Run(e, table, cs + [Init(cut)]).flash, r.tag)
               == Some(if Used(p) > 1 && r.tag in m && r.tag != TagAt(p, 1) then m[r.tag] else r.data)
  {
    hide Receiving, Committed, NeverDeviates, Run, StoreOf, ReadBack, Recoverable, Doubled, AsAsked, Used, Exec,
         WritePlan, Merged;
    var f := d.flash;
    EarlyCut(f, table, v, r, 0);
    EarlyCut(f, table, v, r, 2);
    WriteKeeps(d, table, r, 2);
    ReceivingFacts(f, table, v);
    var e := Step(d, table, Write(r, 2));
    RecoveriesRead(e, table, cs, cut);
    if Outvoted(f.At(v.Other()), StoreOf(f.At(v)), r) {
      MergedAt(f.At(v.Other()), StoreOf(f.At(v)), r.tag);
    }
  }

  /** The window is the only way to two valid pages. */
  lemma {:induction false} OnlyTheWindowDoubles(d: Device, table: seq<HalfWord>, c: Call)
    requires Sound(d, table) && !Doubled(d.flash, table) && InTable(table, c)
    ensures Doubled(Step(d, table, c).flash, table) <==> CutInWindow(d.flash, table, c)
  {
    hide Virgin, Mounted, Switched, Receiving, Doubled, Committed, Exec, Used, HasRoom, InitPlan, WritePlan;
    var f := d.flash;
    match c
    case Init(cut) =>
      InitCut(f, table, Reached(InitPlan(f, table).ops, cut));
      if CanResume(f, table) {
        InitHasOps(f, table);
      }
    case Write(r, cut) =>
      HeadersTell(Step(d, table, c).flash, table);
      var k := Reached(WritePlan(f, table, r).ops, cut);
      if v: PageId :| Mounted(f, table, v) {
        WriteCut(f, table, v, r, k);
      } else if v: PageId :| Receiving(f, table, v) {
        EarlyCut(f, table, v, r, k);
      } else {
        NowhereToWrite(f, table, r);
        ExecNothing(f);
      }
  }

  /** What a cut in the window costs: the next EE_Init formats, and the store is empty. */
  lemma {:induction false} WindowLosesAll(d: Device, table: seq<HalfWord>, c: Call, cut: nat)
    requires Sound(d, table) && CutInWindow(d.flash, table, c) && cut >= 3
    ensures var e := Step(Step(d, table, c), table, Init(cut));
            e.ready && Sound(e, table) && Committed(e.flash) == map[]
  {
    hide Virgin, Mounted, Switched, Receiving, Doubled, Committed, Exec, Used, HasRoom, InitPlan, WritePlan, AsAsked,
         Deviates, Unspoilt;
    var k := Reached(InitPlan(d.flash, table).ops, c.cut);
    HeadersTell(d.flash, table);
    InitHasOps(d.flash, table);
    InitCut(d.flash, table, k);
    InitKeeps(d, table, c.cut);
    InitKeeps(Step(d, table, c), table, cut);
    FormatCut(Step(d, table, c).flash, table, 3);
  }

  /** Recovery cannot fail for lack of room while the passes made so far and this one fit on a page. */
  lemma {:induction false} RecoveryBudget(d: Device, table: seq<HalfWord>)
    requires Sound(d, table) && (d.passes + 1) * |table| < Slots(d.flash.page0)
    ensures !Stuck(d.flash, table)
  {
    hide Virgin, Mounted, Switched, Committed, Used, Survivors, Missing, Holds, Faithful, Recoverable, Doubled;
    var f := d.flash;
    assert (d.passes + 1) * |table| == d.passes * |table| + |table|;
    forall v: PageId | Receiving(f, table, v)
      ensures HasRoom(f, table, v)
    {
      MissingAtMost(f, table, v);
    }
  }

  /** An EE_Init that is not cut leaves exactly one valid page and the other one erased, and doing it
      again changes nothing. */
  lemma {:induction false} InitIsTotalAndIdempotent(d: Device, table: seq<HalfWord>)
    requires Sound(d, table) && !Stuck(d.flash, table)
    ensures var f := d.flash;
            var g := Exec(f, InitPlan(f, table).ops);
            && InitPlan(f, table).final == FLASH_COMPLETE
            && Committed(g) == Committed(f) && KnownHeaders(g)
            && ReadPage(g).Some? && WritePage(g) == ReadPage(g)
            && g.Header(ReadPage(g).value) == VALID_PAGE && IsBlank(g.At(ReadPage(g).value.Other()))
            && InitPlan(g, table) == All([Erase(ReadPage(g).value.Other())])
            && Exec(g, InitPlan(g, table).ops) == g
  {
    hide Virgin, Switched, Receiving, Doubled, Committed, Exec, Used, HasRoom, InitPlan, Holds;
    var f := d.flash;
    var n := |InitPlan(f, table).ops|;
    assert InitPlan(f, table).ops[..n] == InitPlan(f, table).ops;
    InitCut(f, table, n);
    var g := Exec(f, InitPlan(f, table).ops);
    var v: PageId :| Mounted(g, table, v);
    MountedFacts(g, table, v);
    TidyCut(g, table, v, 1);
    assert [Erase(v.Other())][..1] == [Erase(v.Other())];
  }

  /** Out of room: a transfer out of page `v` is under way and the missing records do not fit. */
  ghost predicate OutOfRoom(f: Flash, table: seq<HalfWord>, v: PageId)
    requires f.Shaped()
  {
    Receiving(f, table, v) && !HasRoom(f, table, v)
  }

  /** One call on a device that is out of room. */
  lemma {:induction false} StuckStep(d: Device, table: seq<HalfWord>, v: PageId, c: Call)
    requires Sound(d, table) && OutOfRoom(d.flash, table, v) && InTable(table, c)
    ensures var e := Step(d, table, c);
            && Sound(e, table) && OutOfRoom(e.flash, table, v) && e.flash.At(v) == d.flash.At(v)
            && (c.Init? ==> !e.ready)
            && (Refused(d.flash) ==> e.flash == d.flash && !e.ready)
  {
    hide Recoverable, Receiving, Doubled, Committed, Exec, InitPlan, ResumePlan, WritePlan, Used, StoreOf, Survivors,
         AsAsked, Deviates, Unspoilt, Refused, TagAt, Outvoted;
    var f := d.flash;
    var k := Reached(PlanOf(f, table, c).ops, c.cut);
    CallKeeps(d, table, c);
    MissingAtMost(f, table, v);
    ReceivingUsed(f, table, v);
    match c
    case Init(_) =>
      ResumeInit(f, table, v);
      ResumeCut(f, table, v, k);
      if Refused(f) {
        NothingToCopy(f, table, v);
        ExecNothing(f);
      }
    case Write(r, _) =>
      EarlyCut(f, table, v, r, k);
  }

  /** Without a free word, a recovery that is out of room has nothing to do. */
  lemma {:induction false} NothingToCopy(f: Flash, table: seq<HalfWord>, v: PageId)
    requires GoodTable(table) && f.Shaped() && OutOfRoom(f, table, v) && Refused(f)
    ensures InitPlan(f, table) == Plan([], PAGE_FULL)
  {
    hide StoreUpTo, FirstBlank, IsLog, Holds, AppendPlan, Exec, Copies, Survivors, CopyPlan, TagAt;
    var rs := Survivors(table, 0, StoreOf(f.At(v)), TagAt(f.At(v.Other()), 1));
    ReceivingFacts(f, table, v);
    ResumeInit(f, table, v);
    SurvivorsAre(table, 0, StoreOf(f.At(v)), TagAt(f.At(v.Other()), 1));
    CopyAll(f, table, v, rs);
    assert CopyPlan(f, rs).ops == [];
  }

  /** A device that is out of room stays out of room.  Whatever calls are made, in whatever order, and
      wherever each of them is cut, no EE_Init completes, and reads go on being served from the old page,
      which never changes.  Once the receiving page is full as well, nothing completes and nothing
      changes any more. */
  lemma {:induction false} StuckForGood(d: Device, table: seq<HalfWord>, v: PageId, cs: seq<Call>)
    requires Sound(d, table) && OutOfRoom(d.flash, table, v) && AllInTable(table, cs)
    ensures var e := Run(d, table, cs);
            && OutOfRoom(e.flash, table, v) && ReadPage(e.flash) == Some(v) && e.flash.At(v) == d.flash.At(v)
            && InitPlan(e.flash, table).final == PAGE_FULL
            && (cs != [] && cs[|cs| - 1].Init? ==> !e.ready)
            && (Refused(d.flash) ==> e.flash == d.flash && (cs != [] ==> !e.ready))
    decreases |cs|
  {
    hide Sound, Step, OutOfRoom, InitPlan, Refused, ReadPage, Run;
    SoundShape(d, table);
    if cs == [] {
      StuckReads(d, table, v);
      RunNone(d, table);
    } else {
      StuckStep(d, table, v, cs[0]);
      StuckForGood(Step(d, table, cs[0]), table, v, cs[1..]);
      RunFirst(d, table, cs);
      if |cs| == 1 {
        RunNone(Step(d, table, cs[0]), table);
      }
    }
  }

  lemma {:induction false} RunNone(d: Device, table: seq<HalfWord>)
    requires d.flash.Shaped()
    ensures Run(d, table, []) == d
  {
  }

  lemma {:induction false} RunFirst(d: Device, table: seq<HalfWord>, cs: seq<Call>)
    requires d.flash.Shaped() && cs != []
    ensures Run(d, table, cs) == Run(Step(d, table, cs[0]), table, cs[1..])
  {
  }

  lemma {:induction false} StuckReads(d: Device, table: seq<HalfWord>, v: PageId)
    requires Sound(d, table) && OutOfRoom(d.flash, table, v)
    ensures ReadPage(d.flash) == Some(v) && InitPlan(d.flash, table).final == PAGE_FULL
  {
    hide ResumePlan, HasRoom;
    ReceivingFacts(d.flash, table, v);
    ResumeInit(d.flash, table, v);
    ResumeCut(d.flash, table, v, 0);
  }

  /** An EE_Init that is not cut gets a device that is out of room there. */
  lemma {:induction false} StuckFills(f: Flash, table: seq<HalfWord>, v: PageId)
    requires f.Shaped() && GoodTable(table) && |table| < Slots(f.page0) && OutOfRoom(f, table, v)
    ensures var g := Exec(f, InitPlan(f, table).ops);
            && InitPlan(f, table).final == PAGE_FULL
            && OutOfRoom(g, table, v) && Refused(g) && g.At(v) == f.At(v) && Committed(g) == Committed(f)
            && InitPlan(g, table) == Plan([], PAGE_FULL)
  {
    hide StoreUpTo, FirstBlank, IsLog, Holds, AppendPlan, Exec, Copies, Survivors, CopyPlan, Faithful, TagAt;
    var w := v.Other();
    var rs := Survivors(table, 0, StoreOf(f.At(v)), TagAt(f.At(w), 1));
    MissingAtMost(f, table, v);
    ReceivingUsed(f, table, v);
    ResumeInit(f, table, v);
    ResumeCopies(f, table, v);
    var g := Exec(f, CopyPlan(f, rs).ops);
    ReceivingFacts(g, table, v);
    assert OutOfRoom(g, table, v) && Refused(g);
    NothingToCopy(g, table, v);
  }

  /** Every primitive of every call is legal when it is issued, except in refused writes: each of these
      programs a header with no effect at all and returns PAGE_FULL. */
  predicate CallLegal(f: Flash, table: seq<HalfWord>, c: Call)
    requires f.Shaped()
  {
    var plan := PlanOf(f, table, c);
    if c.Write? && Refused(f) then
      && !LegalRun(f, plan.ops)
      && |plan.ops| == 1 && plan.ops[0].Program? && plan.ops[0].offset == 0 && Do(f, plan.ops[0]) == f
      && plan.final == PAGE_FULL
    else LegalRun(f, plan.ops)
  }

  predicate CallsLegal(d: Device, table: seq<HalfWord>, cs: seq<Call>)
    requires d.flash.Shaped()
    decreases |cs|
  {
    cs == [] || (CallLegal(d.flash, table, cs[0]) && CallsLegal(Step(d, table, cs[0]), table, cs[1..]))
  }

  lemma {:induction false} LegalCall(d: Device, table: seq<HalfWord>, c: Call)
    requires Sound(d, table) && InTable(table, c)
    ensures CallLegal(d.flash, table, c)
  {
    hide Recoverable, Doubled, Refused, WritePlan, InitPlan, LegalRun, Receiving, Used;
    match c
    case Init(_) => InitLegal(d.flash, table);
    case Write(r, _) => WriteLegal(d.flash, table, r);
  }

  /** Flash legality over all runs: whatever calls are made, in whatever order, and wherever each of them
      is cut. */
  lemma {:induction false} RunsAreLegal(d: Device, table: seq<HalfWord>, cs: seq<Call>)
    requires Sound(d, table) && AllInTable(table, cs)
    ensures CallsLegal(d, table, cs)
    decreases |cs|
  {
    hide Sound, Step, Deviates, CallLegal;
    if cs != [] {
      SoundShape(d, table);
      LegalCall(d, table, cs[0]);
      CallKeeps(d, table, cs[0]);
      RunsAreLegal(Step(d, table, cs[0]), table, cs[1..]);
    }
  }
}
