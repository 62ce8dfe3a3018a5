/** The serial EEPROM driver: sEE_WriteBuffer and what it calls, against a device, a bus and a DMA
    controller whose behaviour is arbitrary. */
module I2cDriver {
  import opened Basics
  import opened I2cChunks
  import opened I2cTiming

  /** An unsigned 32-bit counter wraps below zero. */
  lemma {:induction false} CountDown(x: int)
    ensures (x - 1) % TWO32 == if x % TWO32 == 0 then TWO32 - 1 else x % TWO32 - 1
  {
    var q, r := x / TWO32, x % TWO32;
    if r == 0 {
      DivisionUnique(x - 1, q - 1, TWO32 - 1, TWO32);
    } else {
      DivisionUnique(x - 1, q, r - 1, TWO32);
    }
  }

  class Driver {
    const mem: array<Byte>
    const world: Surroundings
    /** What the user's timeout callback returns. */
    const timeoutCode: int
    var now: nat
    /** sEEDataNum, sEETimeout */
    var dataNum: nat
    var timeout: nat
    /** The transfer the DMA controller is carrying out. */
    var inFlight: Option<Chunk>
    /** START conditions of sEE_WaitEepromStandbyState; transfers the device has committed. */
    ghost var starts: nat
    ghost var delivered: seq<Chunk>

    ghost predicate Valid()
      reads mem
    {
      IsDevice(mem[..]) && timeoutCode != OK
    }

    constructor (mem: array<Byte>, world: Surroundings, timeoutCode: int)
      requires IsDevice(mem[..]) && timeoutCode != OK
      ensures Valid() && this.mem == mem && this.world == world && inFlight == None && delivered == []
    {
      this.mem, this.world, this.timeoutCode := mem, world, timeoutCode;
      now, dataNum, timeout, inFlight, starts, delivered := 0, 0, LONG_TIMEOUT, None, 0, [];
    }

    /** One of the driver's waiting loops: false if the shared counter ran out. */
    method AwaitEvent(limit: nat) returns (there: bool)
      modifies `now, `timeout
      ensures match FirstSeen(world.event, old(now), limit)
              case Some(k) => there && now == k + 1
              case None => !there && now == old(now) + limit + 1
    {
      timeout := limit;
      while !world.event(now)
        invariant old(now) <= now && timeout == old(now) + limit - now
        invariant Silent(world.event, old(now), now - old(now))
        decreases timeout
      {
        SeenAt(world.event, old(now), limit, now);
        now := now + 1;
        if timeout == 0 {
          SeenAt(world.event, old(now), limit, now);
          timeout := 0xFFFF_FFFF;
          return false;
        }
        timeout := timeout - 1;
      }
      SeenAt(world.event, old(now), limit, now);
      now := now + 1;
      return true;
    }

    /** sEE_WritePage: hands one transfer to the DMA controller, unless the bus does not respond.  A DMA
        stream that is enabled with a count of zero does not start. */
    method WritePage(c: Chunk) returns (code: int)
      requires Valid() && inFlight == None
      modifies `now, `timeout, `inFlight
      ensures code == OK ==> inFlight == if c.len > 0 then Some(c) else None
      ensures code != OK ==> code == timeoutCode && inFlight == None
      ensures match AfterEvents(world.event, old(now), PAGE_LIMITS)
              case Some(begun) => code == OK && now == begun
              case None => code != OK && now > old(now)
    {
      hide FirstSeen;
      for i := 0 to |PAGE_LIMITS|
        invariant inFlight == None && now >= old(now) + i
        invariant AfterEvents(world.event, old(now), PAGE_LIMITS) == AfterEvents(world.event, now, PAGE_LIMITS[i..])
      {
        assert PAGE_LIMITS[i..][0] == PAGE_LIMITS[i] && PAGE_LIMITS[i..][1..] == PAGE_LIMITS[i + 1..];
        var there := AwaitEvent(PAGE_LIMITS[i]);
        if !there {
          return timeoutCode;
        }
      }
      if c.len > 0 {
        inFlight := Some(c);
      }
      return OK;
    }

    /** sEE_I2C_DMA_TX_IRQHandler: waits until the last byte is on the bus; the STOP condition then makes
        the device commit the bytes it latched. */
    method TransferComplete(buf: seq<Byte>)
      requires Valid() && inFlight.Some? && inFlight.value.offset + inFlight.value.len <= |buf|
      modifies mem, `dataNum, `timeout, `inFlight, `delivered
      ensures Valid() && inFlight == None && dataNum == 0
      ensures var c := old(inFlight).value;
              && delivered == old(delivered) + [c]
              && mem[..] == DeviceWrite(old(mem[..]), c.addr % mem.Length, buf[c.offset..c.offset + c.len])
      ensures timeout == (LONG_TIMEOUT - world.looks(now)) % TWO32
    {
      var c := inFlight.value;
      AwaitLastByte();
      Latch(c.addr % mem.Length, buf[c.offset..c.offset + c.len]);
      inFlight, dataNum, delivered := None, 0, delivered + [c];
    }

    /** The handler's waiting loop.  When the counter is zero it calls the user's timeout callback, but it
        goes on waiting, and the counter wraps around. */
    method AwaitLastByte()
      modifies `timeout
      ensures timeout == (LONG_TIMEOUT - world.looks(now)) % TWO32
    {
      timeout := LONG_TIMEOUT;
      for i := 0 to world.looks(now)
        invariant timeout == (LONG_TIMEOUT - i) % TWO32
      {
        CountDown(LONG_TIMEOUT - i);
        timeout := if timeout == 0 then TWO32 - 1 else timeout - 1;
      }
    }

    /** The device takes the bytes of a transfer one by one. */
    method Latch(addr: nat, data: seq<Byte>)
      requires Valid() && addr < mem.Length
      modifies mem
      ensures Valid() && mem[..] == DeviceWrite(old(mem[..]), addr, data)
    {
      var a: nat := addr;
      for i := 0 to |data|
        invariant a < mem.Length
        invariant DeviceWrite(old(mem[..]), addr, data) == DeviceWrite(mem[..], a, data[i..])
      {
        ghost var before := mem[..];
        mem[a] := data[i];
        assert mem[..] == before[a := data[i]] && data[i..][1..] == data[i + 1..];
        a := NextInPage(a);
      }
    }

    /** The DMA controller interrupts the main program if it has finished. */
    method Interrupt(buf: seq<Byte>)
      requires Valid() && (inFlight.Some? ==> inFlight.value.offset + inFlight.value.len <= |buf|)
      modifies mem, `dataNum, `timeout, `inFlight, `delivered
      ensures Valid()
      ensures if old(inFlight).Some? && world.completes(now) then
                var c := old(inFlight).value;
                && dataNum == 0 && inFlight == None && delivered == old(delivered) + [c]
                && mem[..] == DeviceWrite(old(mem[..]), c.addr % mem.Length, buf[c.offset..c.offset + c.len])
                && timeout == (LONG_TIMEOUT - world.looks(now)) % TWO32
              else
                && dataNum == old(dataNum) && timeout == old(timeout) && inFlight == old(inFlight)
                && delivered == old(delivered) && mem[..] == old(mem[..])
    {
      hide DeviceWrite;
      if inFlight.Some? && world.completes(now) {
        TransferComplete(buf);
      }
    }

    /** The driver's loop that waits for the interrupt handler to clear the byte counter.  It waits for
        nothing if the counter is zero already. */
    method AwaitTransfer(buf: seq<Byte>, ghost c: Chunk) returns (done: bool)
      requires Valid() && (inFlight == Some(c) || inFlight == None) && c.offset + c.len <= |buf|
      requires dataNum == 0 ==> inFlight == None
      modifies mem, `now, `dataNum, `timeout, `inFlight, `delivered
      ensures Valid()
      ensures old(dataNum) == 0 ==> done && now == old(now)
      ensures old(dataNum) > 0 && old(inFlight) == None ==> !done && now > old(now)
      ensures old(dataNum) > 0 && old(inFlight).Some? ==>
                match FirstSeen(world.completes, old(now), LONG_TIMEOUT)
                case None => !done && now == old(now) + LONG_TIMEOUT + 1 && delivered == old(delivered)
                case Some(k) =>
                  && now == k + 1 && delivered == old(delivered) + [c]
                  && (done <==> (LONG_TIMEOUT - world.looks(k)) % TWO32 != 0)
      ensures done ==> inFlight == None &&
                       delivered == if old(dataNum) > 0 then old(delivered) + [c] else old(delivered)
      ensures delivered == old(delivered) || delivered == old(delivered) + [c]
      ensures mem[..] == if delivered == old(delivered) then old(mem[..])
                         else DeviceWrite(old(mem[..]), c.addr % mem.Length, buf[c.offset..c.offset + c.len])
    {
      hide Silent, FirstSeen, DeviceWrite;
      timeout := LONG_TIMEOUT;
      SilentNone(world.completes, now);
      while dataNum > 0
        invariant Valid()
        invariant dataNum > 0 || old(dataNum) == 0 ==>
                    delivered == old(delivered) && mem[..] == old(mem[..]) && inFlight == old(inFlight)
        invariant old(dataNum) == 0 ==> dataNum == 0 && now == old(now)
        invariant dataNum > 0 ==>
                    && old(now) <= now && timeout == old(now) + LONG_TIMEOUT - now
                    && (inFlight.Some? ==> Silent(world.completes, old(now), now - old(now)))
        invariant dataNum == 0 && old(dataNum) > 0 ==>
                    && old(inFlight).Some? && now > old(now)
                    && FirstSeen(world.completes, old(now), LONG_TIMEOUT) == Some(now - 1)
                    && (LONG_TIMEOUT - world.looks(now - 1)) % TWO32 != 0
        invariant dataNum == 0 && old(dataNum) > 0 ==>
                    && inFlight == None && delivered == old(delivered) + [c]
                    && mem[..] == DeviceWrite(old(mem[..]), c.addr % mem.Length, buf[c.offset..c.offset + c.len])
        decreases if dataNum > 0 then 1 else 0, timeout
      {
        if inFlight.Some? {
          SeenAt(world.completes, old(now), LONG_TIMEOUT, now);
          if timeout == 0 && !world.completes(now) {
            SeenAt(world.completes, old(now), LONG_TIMEOUT, now + 1);
          }
        }
        Interrupt(buf);
        now := now + 1;
        if timeout == 0 {
          timeout := 0xFFFF_FFFF;
          return false;
        }
        timeout := timeout - 1;
      }
      return true;
    }

    /** Its inner loop: reads the status register until one of the two flags is up. */
    method AwaitAnswer() returns (there: bool, seen: Answer)
      modifies `now, `timeout
      ensures match FirstSeen(world.Flagged, old(now), LONG_TIMEOUT - 1)
              case Some(k) => there && now == k + 1 && seen == world.answer(k)
              case None => !there && now == old(now) + LONG_TIMEOUT + 1
    {
      timeout := LONG_TIMEOUT;
      seen := Answer(false, false);
      while !seen.addr && !seen.af
        invariant old(now) <= now <= old(now) + LONG_TIMEOUT && timeout == old(now) + LONG_TIMEOUT - now
        invariant if seen.addr || seen.af then
                    now > old(now) && seen == world.answer(now - 1)
                    && FirstSeen(world.Flagged, old(now), LONG_TIMEOUT - 1) == Some(now - 1)
                  else Silent(world.Flagged, old(now), now - old(now))
        decreases !seen.addr && !seen.af, timeout
      {
        SeenAt(world.Flagged, old(now), LONG_TIMEOUT - 1, now);
        seen := world.answer(now);
        now := now + 1;
        if timeout == 0 {
          timeout := 0xFFFF_FFFF;
          return false, seen;
        }
        timeout := timeout - 1;
      }
      return true, seen;
    }

    /** One turn of its outer loop: START condition, address, answer. */
    method Address() returns (trial: Trial)
      modifies `now, `timeout, `starts
      ensures trial == OneTrial(world, old(now)) && now == trial.end && starts == old(starts) + 1
    {
      hide FirstSeen;
      starts := starts + 1;
      var selected := AwaitEvent(FLAG_TIMEOUT);
      if !selected {
        return Late(now);
      }
      var there, seen := AwaitAnswer();
      if !there {
        return Late(now);
      }
      return if seen.addr then Acknowledged(now) else Refused(now);
    }

    /** sEE_WaitEepromStandbyState: addresses the device until it answers. */
    method WaitStandby() returns (code: int, ghost timedOut: bool)
      requires Valid()
      modifies `now, `timeout, `starts
      ensures var p := Polling(world, old(now));
              && now == p.end && starts == old(starts) + p.starts
              && (code == OK <==> p.result.Ready?) && (timedOut <==> p.result.TimedOut?)
      ensures starts <= old(starts) + 301
      ensures code == OK ==> !timedOut && now > old(now) && world.answer(now - 1).addr
      ensures code != OK ==> code == timeoutCode
      ensures code != OK && !timedOut ==>
                now > old(now) && starts == old(starts) + 301
                && world.answer(now - 1).af && !world.answer(now - 1).addr
      ensures timedOut ==> InVain(world, now)
      ensures world.Answering() ==> code == OK && starts == old(starts) + 1
    {
      hide Silent, InVain, FirstSeen, OneTrial, PollsFrom;
      PollingEnds(world, now);
      if world.Answering() {
        AnsweredAtOnce(world, now);
      }
      var free := AwaitEvent(LONG_TIMEOUT);
      if !free {
        return timeoutCode, true;
      }
      var trials := 0;
      ghost var begin := now;
      while true
        invariant 0 <= trials <= MAX_TRIALS && starts == old(starts) + trials
        invariant var p, rest := PollsFrom(world, begin, 0), PollsFrom(world, now, trials);
                  p == Poll(rest.result, rest.end, rest.starts + trials)
        decreases MAX_TRIALS - trials
      {
        PollsUnfold(world, now, trials);
        var trial := Address();
        match trial {
          case Acknowledged(_) =>
            return OK, false;
          case Late(_) =>
            return timeoutCode, true;
          case Refused(_) =>
            if trials == MAX_TRIALS {
              return timeoutCode, false;
            }
            trials := trials + 1;
        }
      }
    }

    /** The block sEE_WriteBuffer repeats: counter, transfer, wait, standby.  An empty transfer commits
        nothing; it counts as delivered at once. */
    method Send(buf: seq<Byte>, c: Chunk) returns (done: bool)
      requires Valid() && inFlight == None && c.offset + c.len <= |buf|
      modifies mem, `now, `dataNum, `timeout, `inFlight, `starts, `delivered
      ensures Valid()
      ensures now > old(now) && (done <==> c.len == 0 || !StallsAt(world, old(now)))
      ensures done && world.Answering() ==> starts == old(starts) + 1
      ensures done ==> inFlight == None && delivered == old(delivered) + [c]
      ensures delivered == old(delivered) || delivered == old(delivered) + [c]
      ensures mem[..] == if delivered == old(delivered) then old(mem[..])
                         else DeviceWrite(old(mem[..]), c.addr % mem.Length, buf[c.offset..c.offset + c.len])
    {
      hide FirstSeen, AfterEvents, Polling, InVain;
      dataNum := c.len;
      var started := WritePage(c);
      if c.len == 0 {
        delivered := delivered + [c];
      }
      done := AwaitTransfer(buf, c);
      if done {
        var ready, _ := WaitStandby();
      }
    }

    /** `sent` transfers of `plan` have been committed since `was`, in order, and nothing else. */
    ghost predicate Sent(was: seq<Byte>, before: seq<Chunk>, buf: seq<Byte>, plan: seq<Chunk>, sent: nat)
      requires IsDevice(was) && InBuffer(plan, |buf|)
      reads mem, `delivered
    {
      sent <= |plan| && delivered == before + plan[..sent] && mem[..] == Deliver(was, buf, plan[..sent])
    }

    /** `Send` the next transfer of the plan. */
    method SendNext(buf: seq<Byte>, c: Chunk, ghost was: seq<Byte>, ghost before: seq<Chunk>, ghost plan: seq<Chunk>,
                    ghost sent: nat)
      returns (done: bool, ghost now_sent: nat)
      requires Valid() && inFlight == None && IsDevice(was) && |was| == mem.Length && InBuffer(plan, |buf|)
      requires Sent(was, before, buf, plan, sent) && sent < |plan| && plan[sent] == c
      modifies mem, `now, `dataNum, `timeout, `inFlight, `starts, `delivered
      ensures Valid() && Sent(was, before, buf, plan, now_sent) && sent <= now_sent <= sent + 1
      ensures done ==> inFlight == None && now_sent == sent + 1
      ensures now > old(now) && Timely(world, old(now), now, done, now_sent - sent, starts - old(starts))
    {
      hide Deliver, DeviceWrite, StallsAt;
      DeliverNext(was, buf, plan, sent);
      done := Send(buf, c);
      now_sent := if delivered == before + plan[..sent] then sent else sent + 1;
    }

    /** The page loop of sEE_WriteBuffer and the incomplete page after it. */
    method SendPages(buf: seq<Byte>, start: nat, startAddr: nat, pages: nat, numOfSingle: nat,
                     ghost was: seq<Byte>, ghost before: seq<Chunk>, ghost plan: seq<Chunk>, ghost first: nat)
      returns (finished: bool, ghost sent: nat)
      requires Valid() && inFlight == None && IsDevice(was) && |was| == mem.Length && InBuffer(plan, |buf|)
      requires first <= |plan| && plan[first..] == PagesAndRest(start, startAddr, pages, numOfSingle)
      requires startAddr < 0x1_0000
      requires Sent(was, before, buf, plan, first)
      modifies mem, `now, `dataNum, `timeout, `inFlight, `starts, `delivered
      ensures Valid() && Sent(was, before, buf, plan, sent)
      ensures finished ==> sent == |plan| && inFlight == None
      ensures Timely(world, old(now), now, finished, sent - first, starts - old(starts))
    {
      hide Deliver, DeviceWrite, PagesAndRest, StallsAt;
      var pBuffer: nat, writeAddr: nat, numOfPage: nat := start, startAddr, pages;
      sent := first;
      while numOfPage != 0
        invariant Valid() && inFlight == None && Sent(was, before, buf, plan, sent)
        invariant writeAddr < 0x1_0000
        invariant plan[sent..] == PagesAndRest(pBuffer, writeAddr, numOfPage, numOfSingle)
        invariant Timely(world, old(now), now, true, sent - first, starts - old(starts))
      {
        NextPage(pBuffer, writeAddr, numOfPage, numOfSingle);
        assert plan[sent] == plan[sent..][0] && plan[sent + 1..] == plan[sent..][1..];
        numOfPage := numOfPage - 1;
        finished, sent := SendNext(buf, Chunk(pBuffer, writeAddr, PAGE_SIZE), was, before, plan, sent);
        if !finished {
          return;
        }
        writeAddr := (writeAddr + PAGE_SIZE) % 0x1_0000;
        pBuffer := pBuffer + PAGE_SIZE;
      }
      RestOnly(pBuffer, writeAddr, numOfSingle);
      finished := true;
      if numOfSingle != 0 {
        assert plan[sent] == plan[sent..][0];
        finished, sent := SendNext(buf, Chunk(pBuffer, writeAddr, numOfSingle), was, before, plan, sent);
      }
    }

    /** The branch of sEE_WriteBuffer for an address at the beginning of a page. */
    method WriteAligned(buf: seq<Byte>, writeAddr: nat, numByteToWrite: nat,
                        ghost was: seq<Byte>, ghost before: seq<Chunk>)
      returns (finished: bool, ghost sent: nat)
      requires Valid() && inFlight == None && IsDevice(was) && |was| == mem.Length
      requires writeAddr < 0x1_0000 && numByteToWrite < 0x1_0000 && writeAddr % PAGE_SIZE == 0
      requires InBuffer(Transfers(writeAddr, numByteToWrite), |buf|)
      requires Sent(was, before, buf, Transfers(writeAddr, numByteToWrite), 0)
      modifies mem, `now, `dataNum, `timeout, `inFlight, `starts, `delivered
      ensures Valid() && Sent(was, before, buf, Transfers(writeAddr, numByteToWrite), sent)
      ensures finished ==> sent == |Transfers(writeAddr, numByteToWrite)| && inFlight == None
      ensures Timely(world, old(now), now, finished, sent, starts - old(starts))
    {
      hide Deliver, DeviceWrite, PagesAndRest, StallsAt;
      ghost var plan := Transfers(writeAddr, numByteToWrite);
      var numOfPage := numByteToWrite / PAGE_SIZE % 0x100;
      var numOfSingle := numByteToWrite % PAGE_SIZE;
      if numOfPage == 0 {
        finished, sent := SendNext(buf, Chunk(0, writeAddr, numOfSingle), was, before, plan, 0);
      } else {
        finished, sent := SendPages(buf, 0, writeAddr, numOfPage, numOfSingle, was, before, plan, 0);
      }
    }

    /** Its branch for any other address. */
    method WriteUnaligned(buf: seq<Byte>, writeAddr: nat, numByteToWrite: nat,
                          ghost was: seq<Byte>, ghost before: seq<Chunk>)
      returns (finished: bool, ghost sent: nat)
      requires Valid() && inFlight == None && IsDevice(was) && |was| == mem.Length
      requires writeAddr < 0x1_0000 && numByteToWrite < 0x1_0000 && writeAddr % PAGE_SIZE != 0
      requires InBuffer(Transfers(writeAddr, numByteToWrite), |buf|)
      requires Sent(was, before, buf, Transfers(writeAddr, numByteToWrite), 0)
      modifies mem, `now, `dataNum, `timeout, `inFlight, `starts, `delivered
      ensures Valid() && Sent(was, before, buf, Transfers(writeAddr, numByteToWrite), sent)
      ensures finished ==> sent == |Transfers(writeAddr, numByteToWrite)| && inFlight == None
      ensures Timely(world, old(now), now, finished, sent, starts - old(starts))
    {
      hide Deliver, DeviceWrite, PagesAndRest, Transfers, StallsAt;
      ghost var plan := Transfers(writeAddr, numByteToWrite);
      UnalignedPlan(writeAddr, numByteToWrite);
      var count := (PAGE_SIZE - writeAddr % PAGE_SIZE) % 0x100;
      assert count == PAGE_SIZE - writeAddr % PAGE_SIZE;
      var numOfPage := numByteToWrite / PAGE_SIZE % 0x100;
      var numOfSingle := numByteToWrite % PAGE_SIZE;
      if numOfPage == 0 {
        if numByteToWrite > count {
          finished, sent := SendNext(buf, Chunk(0, writeAddr, count), was, before, plan, 0);
          if finished {
            var c := Chunk(count, (writeAddr + count) % 0x1_0000, (numByteToWrite - count) % 0x100);
            finished, sent := SendNext(buf, c, was, before, plan, 1);
          }
        } else {
          finished, sent := SendNext(buf, Chunk(0, writeAddr, numOfSingle), was, before, plan, 0);
        }
      } else {
        var rest := numByteToWrite - count;
        numOfPage, numOfSingle := rest / PAGE_SIZE % 0x100, rest % PAGE_SIZE;
        finished, sent := SendNext(buf, Chunk(0, writeAddr, count), was, before, plan, 0);
        if finished {
          finished, sent := SendPages(buf, count, (writeAddr + count) % 0x1_0000, numOfPage, numOfSingle,
                                      was, before, plan, 1);
        }
      }
    }

    /** sEE_WriteBuffer, with its 8-bit page counter and 16-bit addresses. */
    method WriteBuffer(buf: seq<Byte>, writeAddr: nat, numByteToWrite: nat) returns (finished: bool, ghost sent: nat)
      requires Valid() && inFlight == None
      requires writeAddr < 0x1_0000 && numByteToWrite < 0x1_0000
      requires InBuffer(Transfers(writeAddr, numByteToWrite), |buf|)
      modifies mem, `now, `dataNum, `timeout, `inFlight, `starts, `delivered
      ensures Valid() && Sent(old(mem[..]), old(delivered), buf, Transfers(writeAddr, numByteToWrite), sent)
      ensures finished ==> sent == |Transfers(writeAddr, numByteToWrite)| && inFlight == None
      ensures 0 < numByteToWrite < 0x2000 && numByteToWrite <= |buf| &&
                writeAddr + numByteToWrite <= Min(mem.Length, 0x1_0000) ==>
                var got := if finished then numByteToWrite else Total(Transfers(writeAddr, numByteToWrite)[..sent]);
                got <= numByteToWrite && mem[..] == FlatWrite(old(mem[..]), writeAddr, buf[..got])
      ensures Timely(world, old(now), now, finished, sent, starts - old(starts))
      ensures world.Prompt() ==> finished
      ensures world.Answering() ==> starts == old(starts) + |Transfers(writeAddr, numByteToWrite)|
    {
      hide Deliver, DeviceWrite, FlatWrite, Transfers, StallsAt;
      ghost var was, before, plan := mem[..], delivered, Transfers(writeAddr, numByteToWrite);
      assert plan[..0] == [];
      DeliverNone(was, buf);
      if writeAddr % PAGE_SIZE == 0 {
        finished, sent := WriteAligned(buf, writeAddr, numByteToWrite, was, before);
      } else {
        finished, sent := WriteUnaligned(buf, writeAddr, numByteToWrite, was, before);
      }
      if world.Prompt() && !finished {
        var s: nat :| old(now) <= s < now && StallsAt(world, s);
        PromptNeverStalls(world, s);
      }
      if 0 < numByteToWrite < 0x2000 && numByteToWrite <= |buf| &&
         writeAddr + numByteToWrite <= Min(mem.Length, 0x1_0000) {
        TransfersUsable(writeAddr, numByteToWrite);
        WriteIsFlatCopy(was, buf, writeAddr, numByteToWrite, sent);
      }
    }
  }
}
