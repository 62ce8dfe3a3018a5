/** What the surroundings of the serial EEPROM driver do, and how long its waiting loops wait for it. */
module I2cTiming {
  import opened Basics

  const FLAG_TIMEOUT := 0x1000
  const LONG_TIMEOUT := 10 * FLAG_TIMEOUT
  /** How many looks these limits allow. */
  const FLAG_LOOKS := 4097
  const LONG_LOOKS := 40961
  const MAX_TRIALS := 300
  const OK := 0

  /** What one look at the status register of the bus shows while the device is being addressed. */
  datatype Answer = Answer(addr: bool, af: bool)

  /** The surroundings, as a function of how often they have been looked at: whether the flag or event
      being waited for is there, what the status register shows, whether the DMA controller raises its
      transfer-complete interrupt, and how often the interrupt handler then looks at the bus until the
      last byte has been transferred. */
  datatype Surroundings = Surroundings(
    event: nat -> bool,
    answer: nat -> Answer,
    completes: nat -> bool,
    looks: nat -> nat)
  {
    /** One of the two flags that end a poll is up. */
    predicate Flagged(t: nat) {
      answer(t).addr || answer(t).af
    }

    /** Nothing holds the driver up. */
    ghost predicate Prompt() {
      forall t: nat :: event(t) && completes(t) && looks(t) < LONG_TIMEOUT
    }

    /** Nor does the device. */
    ghost predicate Answering() {
      Prompt() && forall t: nat :: answer(t).addr
    }
  }

  /** The `n` looks from `t` on are in vain. */
  ghost predicate Silent(sees: nat -> bool, t: nat, n: nat) {
    forall j: nat :: t <= j < t + n ==> !sees(j)
  }

  /** The first of the `limit + 1` looks from `t` on that sees what is being waited for. */
  function FirstSeen(sees: nat -> bool, t: nat, limit: nat): (first: Option<nat>)
    ensures first == None ==> Silent(sees, t, limit + 1)
    ensures first.Some? ==> t <= first.value <= t + limit && sees(first.value) && Silent(sees, t, first.value - t)
    decreases limit
  {
    if sees(t) then Some(t) else if limit == 0 then None else FirstSeen(sees, t + 1, limit - 1)
  }

  /** After looks in vain, this one sees it (or there are none left). */
  lemma {:induction false} SeenAt(sees: nat -> bool, t: nat, limit: nat, k: nat)
    requires t <= k <= t + limit + 1 && Silent(sees, t, k - t)
    ensures !sees(k) ==> Silent(sees, t, k + 1 - t)
    ensures FirstSeen(sees, t, limit) ==
            if k == t + limit + 1 then None else if sees(k) then Some(k) else FirstSeen(sees, k, t + limit - k)
    decreases limit
  {
    if t < k {
      assert !sees(t);
      if limit > 0 {
        SeenAt(sees, t + 1, limit - 1, k);
      }
    }
  }

  /** Waiting for one event after the other, from `t` on: when the last one has been seen. */
  function AfterEvents(sees: nat -> bool, t: nat, limits: seq<nat>): (end: Option<nat>)
    ensures end.Some? ==> t + |limits| <= end.value
    decreases |limits|
  {
    if limits == [] then Some(t)
    else
      match FirstSeen(sees, t, limits[0])
      case None => None
      case Some(k) => AfterEvents(sees, k + 1, limits[1..])
  }

  /** What sEE_WritePage waits for: the bus, the START condition, the device address, and two bytes of
      the memory address. */
  const PAGE_LIMITS: seq<nat> := [LONG_TIMEOUT, FLAG_TIMEOUT, FLAG_TIMEOUT, FLAG_TIMEOUT, FLAG_TIMEOUT]

  /** Events that are always there are seen at once. */
  lemma {:induction false} SeenAtOnce(sees: nat -> bool, t: nat, limits: seq<nat>)
    requires forall j: nat :: sees(j)
    ensures AfterEvents(sees, t, limits) == Some(t + |limits|)
    decreases |limits|
  {
    if limits != [] {
      SeenAtOnce(sees, t + 1, limits[1..]);
    }
  }

  /** Otherwise one of the waits was in vain for its whole limit. */
  lemma {:induction false} SilentWindow(sees: nat -> bool, t: nat, limits: seq<nat>) returns (w: nat)
    requires AfterEvents(sees, t, limits) == None && forall i :: 0 <= i < |limits| ==> limits[i] >= FLAG_TIMEOUT
    ensures t <= w && Silent(sees, w, FLAG_LOOKS)
    decreases |limits|
  {
    match FirstSeen(sees, t, limits[0])
    case None => w := t;
    case Some(k) => w := SilentWindow(sees, k + 1, limits[1..]);
  }

  /** A transfer begun at time `t` is not waited for to its end: the bus does not respond, the interrupt
      does not come, or the handler leaves zero in the counter that the main program tests. */
  predicate StallsAt(world: Surroundings, t: nat) {
    match AfterEvents(world.event, t, PAGE_LIMITS)
    case None => true
    case Some(begun) =>
      match FirstSeen(world.completes, begun, LONG_TIMEOUT)
      case None => true
      case Some(k) => (LONG_TIMEOUT - world.looks(k)) % TWO32 == 0
  }

  lemma {:induction false} PromptNeverStalls(world: Surroundings, t: nat)
    requires world.Prompt()
    ensures !StallsAt(world, t) && AfterEvents(world.event, t, PAGE_LIMITS) == Some(t + 5)
  {
    SeenAtOnce(world.event, t, PAGE_LIMITS);
    assert world.event(t + 5) && world.completes(t + 5) && world.looks(t + 5) < LONG_TIMEOUT;
  }

  /** In other words: the bus stayed silent for more looks than a limit allows, or the interrupt did, or
      the handler took exactly as long as it takes to count the timeout down to zero. */
  lemma {:induction false} StallMeans(world: Surroundings, t: nat)
    requires StallsAt(world, t)
    ensures || (exists w: nat :: t <= w && Silent(world.event, w, FLAG_LOOKS))
            || (exists w: nat :: t <= w && Silent(world.completes, w, LONG_LOOKS))
            || (exists k: nat :: t <= k && world.completes(k) && (LONG_TIMEOUT - world.looks(k)) % TWO32 == 0)
  {
    match AfterEvents(world.event, t, PAGE_LIMITS)
    case None => var w := SilentWindow(world.event, t, PAGE_LIMITS);
    case Some(begun) => assert t <= begun;
  }

  /** The looks before time `end` were in vain for as long as a limit allows: the bus was silent, or the
      device showed neither flag. */
  ghost predicate InVain(world: Surroundings, end: nat) {
    || (end >= FLAG_LOOKS && Silent(world.event, end - FLAG_LOOKS, FLAG_LOOKS))
    || (end >= LONG_LOOKS && Silent(world.Flagged, end - LONG_LOOKS, LONG_LOOKS - 1))
  }

  datatype Standing = Ready | NoAnswer | TimedOut

  /** How polling the device ends, when, and after how many START conditions. */
  datatype Poll = Poll(result: Standing, end: nat, starts: nat)

  /** How one START condition with the device's address is answered, and when that is known. */
  datatype Trial = Acknowledged(end: nat) | Refused(end: nat) | Late(end: nat)

  /** A trial that begins at time `t`.  The last look that the timeout allows is not used. */
  function OneTrial(world: Surroundings, t: nat): (trial: Trial)
    ensures t < trial.end
  {
    match FirstSeen(world.event, t, FLAG_TIMEOUT)
    case None => Late(t + FLAG_LOOKS)
    case Some(selected) =>
      match FirstSeen(world.Flagged, selected + 1, LONG_TIMEOUT - 1)
      case None => Late(selected + 1 + LONG_LOOKS)
      case Some(k) => if world.answer(k).addr then Acknowledged(k + 1) else Refused(k + 1)
  }

  lemma {:induction false} TrialMeans(world: Surroundings, t: nat)
    ensures match OneTrial(world, t)
            case Acknowledged(end) => world.answer(end - 1).addr
            case Refused(end) => world.answer(end - 1).af && !world.answer(end - 1).addr
            case Late(end) => InVain(world, end)
  {
    hide Silent;
    match FirstSeen(world.event, t, FLAG_TIMEOUT)
    case None =>
    case Some(selected) =>
      match FirstSeen(world.Flagged, selected + 1, LONG_TIMEOUT - 1)
      case None =>
      case Some(k) => assert world.Flagged(k);
  }

  /** Polling from time `t` on, when `trials` START conditions have been in vain. */
  function PollsFrom(world: Surroundings, t: nat, trials: nat): (p: Poll)
    requires trials <= MAX_TRIALS
    ensures t < p.end && 1 <= p.starts <= MAX_TRIALS + 1 - trials
    decreases MAX_TRIALS - trials
  {
    match OneTrial(world, t)
    case Acknowledged(end) => Poll(Ready, end, 1)
    case Late(end) => Poll(TimedOut, end, 1)
    case Refused(end) =>
      if trials == MAX_TRIALS then Poll(NoAnswer, end, 1)
      else
        var p := PollsFrom(world, end, trials + 1);
        p.(starts := p.starts + 1)
  }

  /** One more trial. */
  lemma {:induction false} PollsUnfold(world: Surroundings, t: nat, trials: nat)
    requires trials <= MAX_TRIALS
    ensures var p := PollsFrom(world, t, trials);
            match OneTrial(world, t)
            case Acknowledged(end) => p == Poll(Ready, end, 1)
            case Late(end) => p == Poll(TimedOut, end, 1)
            case Refused(end) =>
              if trials == MAX_TRIALS then p == Poll(NoAnswer, end, 1)
              else
                var rest := PollsFrom(world, end, trials + 1);
                p == Poll(rest.result, rest.end, rest.starts + 1)
  {
    hide OneTrial;
  }

  lemma {:induction false} SilentNone(sees: nat -> bool, t: nat)
    ensures Silent(sees, t, 0)
  {
  }

  /** Waiting for the bus and then polling. */
  function Polling(world: Surroundings, t: nat): (p: Poll)
    ensures t < p.end && p.starts <= MAX_TRIALS + 1
  {
    match FirstSeen(world.event, t, LONG_TIMEOUT)
    case None => Poll(TimedOut, t + LONG_TIMEOUT + 1, 0)
    case Some(free) => PollsFrom(world, free + 1, 0)
  }

  /** What each way to end means. */
  ghost predicate EndsWell(world: Surroundings, p: Poll, trials: nat) {
    match p.result
    case Ready => p.end > 0 && p.starts > 0 && world.answer(p.end - 1).addr
    case NoAnswer =>
      p.end > 0 && p.starts == 301 - trials && world.answer(p.end - 1).af && !world.answer(p.end - 1).addr
    case TimedOut => InVain(world, p.end)
  }

  lemma {:induction false} PollsEnd(world: Surroundings, t: nat, trials: nat)
    requires trials <= MAX_TRIALS
    ensures EndsWell(world, PollsFrom(world, t, trials), trials)
    decreases MAX_TRIALS - trials
  {
    hide OneTrial, InVain;
    TrialMeans(world, t);
    match OneTrial(world, t)
    case Acknowledged(_) =>
    case Late(_) =>
    case Refused(end) =>
      if trials < MAX_TRIALS {
        PollsEnd(world, end, trials + 1);
      }
  }

  lemma {:induction false} PollingEnds(world: Surroundings, t: nat)
    ensures EndsWell(world, Polling(world, t), 0)
  {
    hide Silent, FirstSeen, PollsFrom;
    match FirstSeen(world.event, t, LONG_TIMEOUT)
    case None => SilentFor(world.event, t, LONG_LOOKS, LONG_LOOKS - FLAG_LOOKS);
    case Some(free) => PollsEnd(world, free + 1, 0);
  }

  lemma {:induction false} SilentFor(sees: nat -> bool, t: nat, n: nat, skip: nat)
    requires Silent(sees, t, n) && skip <= n
    ensures Silent(sees, t + skip, n - skip)
  {
  }

  /** A device that answers, on a bus that responds, is polled once. */
  lemma {:induction false} AnsweredAtOnce(world: Surroundings, t: nat)
    requires world.Answering()
    ensures Polling(world, t) == Poll(Ready, t + 3, 1)
  {
    assert world.event(t) && world.event(t + 1) && world.answer(t + 2).addr;
    assert world.Flagged(t + 2);
  }

  /** Between times `t` and `end` the driver went through `sent` transfers and `starts` polls, and either
      finished or met a transfer that stalls. */
  ghost predicate Timely(world: Surroundings, t: nat, end: nat, finished: bool, sent: int, starts: int) {
    && t <= end
    && (!finished ==> exists s: nat :: t <= s < end && StallsAt(world, s))
    && (finished && world.Answering() ==> starts == sent)
  }
}
