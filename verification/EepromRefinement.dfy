/** The driver's calls, on its two arrays, are the runs that EepromRuns is about. */
module EepromRefinement {
  import opened FlashMemory
  import opened PageLog
  import opened EepromPlan
  import opened EepromPhases
  import opened EepromProgress
  import opened EepromRuns
  import opened EepromDriver

  datatype Request = WriteRequest(r: Record) | InitRequest

  predicate Answers(c: Call, q: Request) {
    match q
    case WriteRequest(r) => c.Write? && c.r == r
    case InitRequest => c.Init?
  }

  /** A call of the driver is a step of the run model, cut where the flash stopped completing
      primitives. */
  lemma {:induction false} CallIsStep(verdict: Verdict, start: Moment, table: seq<HalfWord>, c: Call, done: nat,
                                      status: int,
                                      now: Moment, d: Device)
    requires start.flash.Shaped() && d.flash == start.flash && c.cut == done
    requires Ran(verdict, start, PlanOf(start.flash, table, c), done, status, now)
    ensures var e := Step(d, table, c); now.flash == e.flash && (status == FLASH_COMPLETE <==> e.ready)
  {
  }

  /** The calls made so far, and what they returned. */
  ghost predicate Played(d: Device, table: seq<HalfWord>, requests: seq<Request>, cs: seq<Call>, statuses: seq<int>)
    requires d.flash.Shaped()
  {
    && |cs| == |statuses| <= |requests|
    && (forall i :: 0 <= i < |cs| ==> Answers(cs[i], requests[i]))
    && (forall i :: 0 <= i < |cs| ==> (statuses[i] == FLASH_COMPLETE <==> Run(d, table, cs[..i + 1]).ready))
  }

  lemma {:induction false} PlayedOneMore(d: Device, table: seq<HalfWord>, requests: seq<Request>, cs: seq<Call>,
                                         statuses: seq<int>,
                                         c: Call, status: int)
    requires d.flash.Shaped() && Played(d, table, requests, cs, statuses)
    requires |cs| < |requests| && Answers(c, requests[|cs|])
    requires status == FLASH_COMPLETE <==> Step(Run(d, table, cs), table, c).ready
    ensures Played(d, table, requests, cs + [c], statuses + [status])
    ensures Run(d, table, cs + [c]) == Step(Run(d, table, cs), table, c)
  {
    hide Step, Run;
    RunConcat(d, table, cs, [c]);
    RunOne(Run(d, table, cs), table, c);
    var all := cs + [c];
    assert all[..|cs| + 1] == all;
    forall i | 0 <= i < |all|
      ensures Answers(all[i], requests[i])
      ensures (statuses + [status])[i] == FLASH_COMPLETE <==> Run(d, table, all[..i + 1]).ready
    {
      assert i < |cs| ==> all[..i + 1] == cs[..i + 1];
    }
  }

  /** Any sequence of calls of the driver, whatever the flash answers: the flash ends as the run model
      says, each call cut where the flash stopped; the emulation stays sound; unless a call deviates,
      the store is what the calls explain; and after an EE_Init that completed, reads see that store. */
  method Play(driver: Driver, requests: seq<Request>, ghost passes: nat) returns (statuses: seq<int>,
              ghost cs: seq<Call>)
    requires driver.Valid() && Sound(Device(driver.Content(), false, passes), driver.table)
    requires forall q :: q in requests && q.WriteRequest? ==> q.r.tag in driver.table
    modifies driver.page0, driver.page1, driver`clock, driver`dataVar
    ensures driver.Valid() && |cs| == |requests|
    ensures var d := Device(old(driver.Content()), false, passes);
            && Played(d, driver.table, requests, cs, statuses)
            && driver.Content() == Run(d, driver.table, cs).flash
            && Sound(Run(d, driver.table, cs), driver.table)
            && (NeverDeviates(d, driver.table, cs) ==>
                  Explains(d, driver.table, cs, Committed(d.flash), Committed(driver.Content())))
    ensures requests != [] && requests[|requests| - 1] == InitRequest && statuses[|requests| - 1] == FLASH_COMPLETE ==>
              var p := ReadPage(driver.Content());
              p.Some? && StoreOf(driver.Content().At(p.value)) == Committed(driver.Content())
  {
    hide Sound, Step, Run, Ran, Explains, NeverDeviates, ReadBack, Committed, StoreOf;
    ghost var d := Device(driver.Content(), false, passes);
    statuses, cs := [], [];
    assert Run(d, driver.table, []) == d by {
      RunNone(d, driver.table);
    }
    for i := 0 to |requests|
      invariant driver.Valid() && |cs| == i && Played(d, driver.table, requests, cs, statuses)
      invariant driver.Content() == Run(d, driver.table, cs).flash
    {
      ghost var start, before := driver.Now(), Run(d, driver.table, cs);
      ghost var done, c;
      var status;
      match requests[i] {
        case InitRequest =>
          status, done := driver.Init();
          c := Init(done);
        case WriteRequest(r) =>
          status, done := driver.WriteVariable(r.tag, r.data);
          c := Write(r, done);
      }
      CallIsStep(driver.verdict, start, driver.table, c, done, status, driver.Now(), before);
      PlayedOneMore(d, driver.table, requests, cs, statuses, c, status);
      statuses, cs := statuses + [status], cs + [c];
    }
    PlayedInTable(d, driver.table, requests, cs, statuses);
    RunsStaySound(d, driver.table, cs);
    if NeverDeviates(d, driver.table, cs) {
      CrashAtomicity(d, driver.table, cs);
    }
    if requests != [] && requests[|requests| - 1] == InitRequest && statuses[|requests| - 1] == FLASH_COMPLETE {
      ghost var n := |cs| - 1;
      assert cs == cs[..n] + [Init(cs[n].cut)] && cs[..n + 1] == cs;
      RecoveredReads(d, driver.table, cs[..n], cs[n].cut);
    }
  }

  lemma {:induction false} PlayedInTable(d: Device, table: seq<HalfWord>, requests: seq<Request>, cs: seq<Call>,
                                         statuses: seq<int>)
    requires d.flash.Shaped() && Played(d, table, requests, cs, statuses)
    requires forall q :: q in requests && q.WriteRequest? ==> q.r.tag in table
    ensures AllInTable(table, cs)
  {
    forall c | c in cs
      ensures InTable(table, c)
    {
      var i :| 0 <= i < |cs| && cs[i] == c;
      assert Answers(c, requests[i]) && requests[i] in requests;
    }
  }
}
