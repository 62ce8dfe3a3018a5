/** What it means for the first primitives of a plan to have happened, and how to follow a plan step
    by step. */
module EepromProgress {
  import opened Basics
  import opened FlashMemory
  import opened PageLog
  import opened EepromPlan

  type FlashStatus = s: int | 1 <= s <= FLASH_COMPLETE witness FLASH_COMPLETE

  /** The codes do not get mixed up: success is none of the flash controller's seven error codes, and the
      emulation's own two codes are neither success nor one of them, nor the same. */
  lemma {:induction false} StatusesDiffer(s: FlashStatus, error: int)
    requires 1 <= error <= 7
    ensures s != FLASH_COMPLETE ==> 1 <= s <= 7
    ensures error != FLASH_COMPLETE && s != PAGE_FULL && s != NO_VALID_PAGE && PAGE_FULL != NO_VALID_PAGE
  {
  }

  /** The flash controller's answer to the n-th primitive it is ever given. */
  type Verdict = nat -> FlashStatus

  datatype Moment = Moment(flash: Flash, clock: nat)

  /** The flash completed the `n` primitives it was given from time `c` on. */
  ghost predicate Completed(verdict: Verdict, c: nat, n: nat) {
    forall t: nat :: c <= t < c + n ==> verdict(t) == FLASH_COMPLETE
  }

  /** Between two moments, exactly the first `done` primitives of `plan` have happened: all of them,
      with the plan's own final status, or all up to the first one that the flash refused, with the
      flash's answer. */
  ghost predicate Ran(verdict: Verdict, start: Moment, plan: Plan, done: nat, status: int, now: Moment) {
    && done <= |plan.ops|
    && now.flash == Exec(start.flash, plan.ops[..done])
    && Completed(verdict, start.clock, done)
    && (done == |plan.ops| ==> status == plan.final && now.clock == start.clock + done)
    && (done < |plan.ops| ==>
          && status == verdict(start.clock + done) != FLASH_COMPLETE
          && now.clock == start.clock + done + 1)
  }

  /** All of `ops` have happened and nothing else has. */
  ghost predicate Issued(verdict: Verdict, start: Moment, ops: seq<Primitive>, now: Moment) {
    now.flash == Exec(start.flash, ops) && Completed(verdict, start.clock, |ops|) && now.clock == start.clock + |ops|
  }

  /** The flash was given one primitive. */
  ghost predicate Answered(verdict: Verdict, before: Moment, op: Primitive, status: int, now: Moment) {
    && status == verdict(before.clock)
    && now == Moment(if status == FLASH_COMPLETE then Do(before.flash, op) else before.flash, before.clock + 1)
  }

  /** Nothing has been issued yet. */
  lemma {:induction false} Begin(verdict: Verdict, start: Moment, plan: Plan)
    ensures Issued(verdict, start, [], start) && plan == All([]).Then(plan)
  {
  }

  /** `plan` is under way, `issued` has happened, and its next primitive was given to the flash. */
  lemma {:induction false} Progress(verdict: Verdict, start: Moment, plan: Plan, issued: seq<Primitive>,
                                    before: Moment, op: Primitive, status: int, now: Moment)
    requires |issued| < |plan.ops| && plan.ops[..|issued|] == issued && plan.ops[|issued|] == op
    requires Issued(verdict, start, issued, before) && Answered(verdict, before, op, status, now)
    ensures status != FLASH_COMPLETE ==> Ran(verdict, start, plan, |issued|, status, now)
    ensures status == FLASH_COMPLETE ==> Issued(verdict, start, issued + [op], now)
    ensures status == FLASH_COMPLETE ==> plan.ops[..|issued| + 1] == issued + [op]
  {
    if status == FLASH_COMPLETE {
      ExecConcat(start.flash, issued, [op]);
      assert [op][1..] == [];
    }
  }

  /** `plan` is under way, `issued` has happened, and then the part `one` of it ran.  Either it
      failed, and the plan stopped there, or the rest is still to come. */
  lemma {:induction false} Sequel(verdict: Verdict, start: Moment, plan: Plan, issued: seq<Primitive>, before: Moment,
               one: Plan, more: Plan, done: nat, status: int, now: Moment)
    requires plan == All(issued).Then(one.Then(more))
    requires Issued(verdict, start, issued, before) && Ran(verdict, before, one, done, status, now)
    ensures status != FLASH_COMPLETE ==> Ran(verdict, start, plan, |issued| + done, status, now)
    ensures status == FLASH_COMPLETE ==>
              && done == |one.ops| && one.final == FLASH_COMPLETE
              && Issued(verdict, start, issued + one.ops, now)
              && now.flash == Exec(before.flash, one.ops)
              && plan == All(issued + one.ops).Then(more)
              && plan.ops[..|issued| + done] == issued + one.ops
  {
    assert one.ops[..done] <= one.Then(more).ops;
    assert plan.ops[..|issued| + done] == issued + one.ops[..done];
    ExecConcat(start.flash, issued, one.ops[..done]);
    assert one.ops[..|one.ops|] == one.ops;
    All(issued).ThenAssociates(one, more);
  }

  /** `Sequel` for the copying of one record out of page `v`. */
  lemma {:induction false} CopyOne(verdict: Verdict, start: Moment, plan: Plan, issued: seq<Primitive>, before: Moment,
                v: PageId, rs: seq<Record>, done: nat, status: int, now: Moment)
    requires CopySides(before.flash, v) && rs != [] && rs[0].tag != ERASED
    requires Get(StoreOf(before.flash.At(v)), rs[0].tag) == Some(rs[0].data)
    requires plan == All(issued).Then(CopyPlan(before.flash, rs))
    requires Issued(verdict, start, issued, before)
    requires Ran(verdict, before, AppendPlan(before.flash, rs[0]), done, status, now)
    ensures status != FLASH_COMPLETE ==> Ran(verdict, start, plan, |issued| + done, status, now)
    ensures status == FLASH_COMPLETE ==>
              && CopySides(now.flash, v) && StoreOf(now.flash.At(v)) == StoreOf(before.flash.At(v))
              && (|| TagAt(now.flash.At(v.Other()), 1) == TagAt(before.flash.At(v.Other()), 1)
                  || (TagAt(before.flash.At(v.Other()), 1) == ERASED && TagAt(now.flash.At(v.Other()), 1) == rs[0].tag))
              && Issued(verdict, start, issued + AppendPlan(before.flash, rs[0]).ops, now)
              && plan == All(issued + AppendPlan(before.flash, rs[0]).ops).Then(CopyPlan(now.flash, rs[1..]))
  {
    var one := AppendPlan(before.flash, rs[0]);
    Sequel(verdict, start, plan, issued, before, one, CopyPlan(Exec(before.flash, one.ops), rs[1..]),
           done, status, now);
    AppendCopy(before.flash, v, rs[0]);
  }

  /** Copying has nothing left to do. */
  lemma {:induction false} CopyEnd(verdict: Verdict, start: Moment, plan: Plan, issued: seq<Primitive>, now: Moment)
    requires Issued(verdict, start, issued, now)
    requires now.flash.Shaped() && plan == All(issued).Then(CopyPlan(now.flash, []))
    ensures Ran(verdict, start, plan, |issued|, FLASH_COMPLETE, now)
  {
    assert plan == All(issued) && issued[..|issued|] == issued;
  }

  /** When everything a plan asks for has been issued, the plan has run. */
  lemma {:induction false} RanAll(verdict: Verdict, start: Moment, plan: Plan, issued: seq<Primitive>, now: Moment)
    requires Issued(verdict, start, issued, now)
    requires |issued| == |plan.ops| && plan.ops[..|issued|] == issued
    ensures Ran(verdict, start, plan, |issued|, plan.final, now)
  {
  }

  /** A plan without primitives runs at once. */
  lemma {:induction false} RanNone(verdict: Verdict, start: Moment, final: int)
    ensures Ran(verdict, start, Plan([], final), 0, final, start)
  {
  }

  /** A record that found no room changed nothing. */
  lemma {:induction false} FullLeavesAll(verdict: Verdict, start: Moment, plan: Plan, done: nat, now: Moment)
    requires Ran(verdict, start, plan, done, PAGE_FULL, now) && (plan.final == PAGE_FULL ==> plan.ops == [])
    ensures plan.final == PAGE_FULL && now == start
  {
    assert done == |plan.ops|;
  }
}
