/** sEE_WriteBuffer and its interrupt handler, interleaved at every shared access.

    The main program and the handler share the byte counter (sEEDataNum) and the timeout counter
    (sEETimeout).  The handler may run between any two steps of the main program once the DMA
    controller has raised its transfer-complete flag. */
module I2cInterleaving {
  import opened Basics
  import opened I2cChunks
  import opened I2cTiming

  /** Where the main program is in its block for transfer `k`: about to store the counter, to start the
      transfer, to set the timeout, to test the counter, to count the timeout down, to wait for the
      device; or it returned early; or it is done. */
  datatype Place = Store | Start | Arm | Test | Count | Standby | GaveUp | Done

  datatype State = State(
    at: Place, k: nat, dataNum: nat, timeout: nat,
    inFlight: Option<Chunk>, flag: bool,
    issued: nat, committed: nat, mem: seq<Byte>)

  ghost predicate Initial(mem: seq<Byte>, s: State) {
    s.at == Store && s.k == 0 && s.inFlight == None && !s.flag && s.issued == 0 && s.committed == 0 && s.mem == mem
  }

  /** A step of the main program.  Calls into the bus may leave any value in the timeout counter. */
  ghost predicate MainStep(plan: seq<Chunk>, s: State, t: State) {
    match s.at
    case Store =>
      if s.k < |plan| then t == s.(at := Start, dataNum := plan[s.k].len) else t == s.(at := Done)
    case Start =>
      && s.k < |plan|
      && (|| t == s.(at := Arm, timeout := t.timeout)
          || t == s.(at := Arm, timeout := t.timeout, issued := s.issued + 1,
                     inFlight := Some(plan[s.k].(len := s.dataNum))))
    case Arm => t == s.(at := Test, timeout := LONG_TIMEOUT)
    case Test => t == s.(at := if s.dataNum > 0 then Count else Standby)
    case Count =>
      if s.timeout == 0 then t == s.(at := GaveUp, timeout := 0xFFFF_FFFF)
      else t == s.(at := Test, timeout := s.timeout - 1)
    case Standby => t == s.(at := Store, k := s.k + 1, timeout := t.timeout)
    case GaveUp => false
    case Done => false
  }

  /** The DMA controller finishes a transfer. */
  ghost predicate DmaStep(s: State, t: State) {
    s.inFlight.Some? && !s.flag && t == s.(flag := true)
  }

  /** The interrupt handler: the device commits the transfer, the counter is cleared. */
  ghost predicate HandlerStep(buf: seq<Byte>, s: State, t: State) {
    && s.flag && s.inFlight.Some? && IsDevice(s.mem)
    && var c := s.inFlight.value;
    && c.offset + c.len <= |buf|
    && t == s.(flag := false, inFlight := None, dataNum := 0, timeout := t.timeout, committed := s.committed + 1,
               mem := DeviceWrite(s.mem, c.addr % |s.mem|, buf[c.offset..c.offset + c.len]))
  }

  ghost predicate Next(plan: seq<Chunk>, buf: seq<Byte>, s: State, t: State) {
    MainStep(plan, s, t) || DmaStep(s, t) || HandlerStep(buf, s, t)
  }

  /** The transfer the main program is at has not started, is in flight, or has been committed. */
  ghost predicate OneAtATime(plan: seq<Chunk>, s: State)
    requires s.k < |plan|
  {
    || (s.inFlight == None && s.issued == s.committed == s.k && s.dataNum == plan[s.k].len)
    || (s.inFlight == Some(plan[s.k]) && s.issued == s.k + 1 && s.committed == s.k && s.dataNum == plan[s.k].len)
    || (s.inFlight == None && s.issued == s.committed == s.k + 1 && s.dataNum == 0)
  }

  ghost predicate Inv(plan: seq<Chunk>, buf: seq<Byte>, mem: seq<Byte>, s: State)
    requires IsDevice(mem) && InBuffer(plan, |buf|)
  {
    && s.committed <= |plan| && s.k <= |plan|
    && s.mem == Deliver(mem, buf, plan[..s.committed])
    && (s.flag ==> s.inFlight.Some?)
    && match s.at
       case Store => s.inFlight == None && s.issued == s.committed == s.k
       case Start => s.k < |plan| && s.inFlight == None && s.issued == s.committed == s.k && s.dataNum == plan[s.k].len
       case Arm => s.k < |plan| && OneAtATime(plan, s)
       case Test => s.k < |plan| && OneAtATime(plan, s)
       case Count => s.k < |plan| && OneAtATime(plan, s)
       case GaveUp => s.k < |plan| && OneAtATime(plan, s)
       case Standby => s.k < |plan| && s.inFlight == None && s.issued == s.committed == s.k + 1
       case Done => s.inFlight == None && s.issued == s.committed == |plan|
  }

  ghost predicate Usable(plan: seq<Chunk>, buf: seq<Byte>) {
    InBuffer(plan, |buf|) && forall i :: 0 <= i < |plan| ==> 0 < plan[i].len
  }

  lemma {:induction false} NextKeepsInv(plan: seq<Chunk>, buf: seq<Byte>, mem: seq<Byte>, s: State, t: State)
    requires IsDevice(mem) && Usable(plan, buf) && Inv(plan, buf, mem, s) && Next(plan, buf, s, t)
    ensures Inv(plan, buf, mem, t)
  {
    hide DeviceWrite;
    if HandlerStep(buf, s, t) {
      assert s.k < |plan| && s.inFlight == Some(plan[s.k]) && s.committed == s.k;
      assert plan[..s.k + 1][..s.k] == plan[..s.k];
    }
  }

  ghost predicate IsRun(plan: seq<Chunk>, buf: seq<Byte>, mem: seq<Byte>, run: seq<State>) {
    && run != [] && Initial(mem, run[0])
    && forall i :: 0 <= i < |run| - 1 ==> Next(plan, buf, run[i], run[i + 1])
  }

  lemma {:induction false} RunsKeepInv(plan: seq<Chunk>, buf: seq<Byte>, mem: seq<Byte>, run: seq<State>, i: nat)
    requires IsDevice(mem) && Usable(plan, buf) && IsRun(plan, buf, mem, run) && i < |run|
    ensures Inv(plan, buf, mem, run[i])
    decreases i
  {
    if i == 0 {
      assert plan[..0] == [];
    } else {
      RunsKeepInv(plan, buf, mem, run, i - 1);
      assert Next(plan, buf, run[i - 1], run[i - 1 + 1]);
      NextKeepsInv(plan, buf, mem, run[i - 1], run[i]);
    }
  }

  /** In every interleaving, a transfer is issued only when the handler has cleared the counter for
      each one before it; there is never more than one in flight. */
  lemma {:induction false} IssuedOnlyAfterCommit(plan: seq<Chunk>, buf: seq<Byte>, mem: seq<Byte>, run: seq<State>,
                                                 i: nat)
    requires IsDevice(mem) && Usable(plan, buf) && IsRun(plan, buf, mem, run) && i < |run| - 1
    ensures run[i].committed <= run[i].issued <= run[i].committed + 1
    ensures run[i + 1].issued > run[i].issued ==>
              && run[i].committed == run[i].issued == run[i].k < |plan|
              && run[i + 1].inFlight == Some(plan[run[i].k])
  {
    hide DeviceWrite, Deliver;
    RunsKeepInv(plan, buf, mem, run, i);
    assert Next(plan, buf, run[i], run[i + 1]);
  }

  /** At every moment of every interleaving, and so after an early return too, the device holds a flat
      copy of a prefix of the buffer: the transfers completed so far.  When the main program is done
      that is all of it; when it gave up, everything before the transfer it gave up on. */
  lemma {:induction false} DeviceHoldsPrefix(buf: seq<Byte>, mem: seq<Byte>, addr: nat, n: nat, run: seq<State>, i: nat)
    requires IsDevice(mem) && 0 < n < 0x2000 && n <= |buf| && addr + n <= |mem| && addr + n <= 0x1_0000
    requires IsRun(Transfers(addr, n), buf, mem, run) && i < |run|
    ensures var s, plan := run[i], Transfers(addr, n);
            && s.committed <= |plan| && Total(plan[..s.committed]) <= n
            && s.mem == FlatWrite(mem, addr, buf[..Total(plan[..s.committed])])
            && (s.at == GaveUp ==> s.k <= s.committed <= s.k + 1)
            && (s.at == Done ==> s.mem == FlatWrite(mem, addr, buf[..n]))
  {
    hide DeviceWrite, Deliver, FlatWrite;
    var plan := Transfers(addr, n);
    TransfersUsable(addr, n);
    RunsKeepInv(plan, buf, mem, run, i);
    WriteIsFlatCopy(mem, buf, addr, n, run[i].committed);
  }

  /** A sequence of steps. */
  ghost predicate Steps(plan: seq<Chunk>, buf: seq<Byte>, run: seq<State>) {
    run != [] && forall i :: 0 <= i < |run| - 1 ==> Next(plan, buf, run[i], run[i + 1])
  }

  lemma {:induction false} OneMoreStep(plan: seq<Chunk>, buf: seq<Byte>, s: State, run: seq<State>)
    requires Steps(plan, buf, run) && Next(plan, buf, s, run[0])
    ensures Steps(plan, buf, [s] + run)
  {
    hide Next;
    var longer := [s] + run;
    forall i | 0 <= i < |longer| - 1
      ensures Next(plan, buf, longer[i], longer[i + 1])
    {
      assert i > 0 ==> longer[i] == run[i - 1] && longer[i + 1] == run[i - 1 + 1];
    }
  }

  /** One transfer carried out without delay: the states before the next one. */
  function Carried(plan: seq<Chunk>, buf: seq<Byte>, s: State): seq<State>
    requires s.k < |plan| && IsDevice(s.mem) && plan[s.k].offset + plan[s.k].len <= |buf|
  {
    var c := plan[s.k];
    var start := s.(at := Start, dataNum := c.len);
    var arm := start.(at := Arm, issued := s.issued + 1, inFlight := Some(c));
    var test := arm.(at := Test, timeout := LONG_TIMEOUT);
    var raised := test.(flag := true);
    var handled := raised.(flag := false, inFlight := None, dataNum := 0, committed := s.committed + 1,
                           mem := DeviceWrite(s.mem, c.addr % |s.mem|, buf[c.offset..c.offset + c.len]));
    [s, start, arm, test, raised, handled, handled.(at := Standby)]
  }

  /** From a state between two transfers there is a way to the end. */
  lemma {:induction false} CanFinish(plan: seq<Chunk>, buf: seq<Byte>, s: State) returns (run: seq<State>)
    requires Usable(plan, buf) && IsDevice(s.mem) && s.at == Store && s.k <= |plan| && !s.flag && s.inFlight == None
    ensures Steps(plan, buf, run) && run[0] == s && run[|run| - 1].at == Done
    decreases |plan| - s.k
  {
    hide DeviceWrite;
    if s.k == |plan| {
      run := [s, s.(at := Done)];
    } else {
      var way := Carried(plan, buf, s);
      var next := way[6].(at := Store, k := s.k + 1);
      run := CanFinish(plan, buf, next);
      var i := 6;
      while i >= 0
        invariant -1 <= i <= 6 && Steps(plan, buf, run) && run[0] == (if i == 6 then next else way[i + 1])
        invariant run[|run| - 1].at == Done
      {
        OneMoreStep(plan, buf, way[i], run);
        run := [way[i]] + run;
        i := i - 1;
      }
    }
  }

  /** While nothing happens, the main program counts down and gives up. */
  lemma {:induction false} CanGiveUp(plan: seq<Chunk>, buf: seq<Byte>, s: State) returns (run: seq<State>)
    requires s.at == Test && s.dataNum > 0
    ensures Steps(plan, buf, run) && run[0] == s && run[|run| - 1].at == GaveUp && run[|run| - 1].mem == s.mem
    decreases s.timeout
  {
    var count := s.(at := Count);
    if s.timeout == 0 {
      run := [count.(at := GaveUp, timeout := 0xFFFF_FFFF)];
    } else {
      run := CanGiveUp(plan, buf, count.(at := Test, timeout := s.timeout - 1));
    }
    OneMoreStep(plan, buf, count, run);
    OneMoreStep(plan, buf, s, [count] + run);
    run := [s] + ([count] + run);
  }

  /** Both ends are possible: for every request there are interleavings in which the main program is done,
      the device holding all of it, and interleavings in which it gives up with nothing written. */
  lemma {:induction false} BothEndsHappen(buf: seq<Byte>, mem: seq<Byte>, addr: nat, n: nat)
    returns (good: seq<State>, bad: seq<State>)
    requires IsDevice(mem) && 0 < n < 0x2000 && n <= |buf| && addr + n <= |mem| && addr + n <= 0x1_0000
    ensures IsRun(Transfers(addr, n), buf, mem, good) && IsRun(Transfers(addr, n), buf, mem, bad)
    ensures good[|good| - 1].at == Done && good[|good| - 1].mem == FlatWrite(mem, addr, buf[..n])
    ensures bad[|bad| - 1].at == GaveUp && bad[|bad| - 1].mem == mem
  {
    hide DeviceWrite, FlatWrite, Next, Transfers;
    var plan := Transfers(addr, n);
    TransfersUsable(addr, n);
    var s := State(Store, 0, 0, 0, None, false, 0, 0, mem);
    good := CanFinish(plan, buf, s);
    DeviceHoldsPrefix(buf, mem, addr, n, good, |good| - 1);
    bad := StalledFrom(plan, buf, s);
  }

  /** The bus does not respond to the first transfer. */
  lemma {:induction false} StalledFrom(plan: seq<Chunk>, buf: seq<Byte>, s: State) returns (run: seq<State>)
    requires Usable(plan, buf) && s.at == Store && s.k < |plan|
    ensures Steps(plan, buf, run) && run[0] == s && run[|run| - 1].at == GaveUp && run[|run| - 1].mem == s.mem
  {
    var start := s.(at := Start, dataNum := plan[s.k].len);
    var arm := start.(at := Arm);
    run := CanGiveUp(plan, buf, arm.(at := Test, timeout := LONG_TIMEOUT));
    OneMoreStep(plan, buf, arm, run);
    OneMoreStep(plan, buf, start, [arm] + run);
    OneMoreStep(plan, buf, s, [start] + ([arm] + run));
    run := [s] + ([start] + ([arm] + run));
  }
}
