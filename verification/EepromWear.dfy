/** Wear: how often an undisturbed store erases flash. */
module EepromWear {
  import opened FlashMemory
  import opened PageLog
  import opened EepromPlan
  import opened EepromPhases
  import opened EepromRecovery
  import opened EepromCrash

  function Erases(ops: seq<Primitive>): nat {
    if ops == [] then 0 else (if ops[0].Erase? then 1 else 0) + Erases(ops[1..])
  }

  lemma {:induction false} ErasesConcat(a: seq<Primitive>, b: seq<Primitive>)
    ensures Erases(a + b) == Erases(a) + Erases(b)
  {
    if a == [] {
      assert a + b == b;
    } else {
      assert (a + b)[0] == a[0] && (a + b)[1..] == a[1..] + b;
      ErasesConcat(a[1..], b);
    }
  }

  lemma {:induction false} AppendErasesNothing(f: Flash, r: Record)
    requires f.Shaped()
    ensures Erases(AppendPlan(f, r).ops) == 0
  {
    var ops := AppendPlan(f, r).ops;
    if ops != [] {
      assert ops[1..] == [ops[1]] && ops[1..][1..] == [];
      assert Erases(ops[1..]) == 0;
    }
  }

  lemma {:induction false} CopyErasesNothing(f: Flash, rs: seq<Record>)
    requires f.Shaped()
    ensures Erases(CopyPlan(f, rs).ops) == 0
    decreases |rs|
  {
    hide AppendPlan, CopyPlan, Exec;
    CopyUnfold(f, rs);
    if rs != [] {
      var one := AppendPlan(f, rs[0]);
      AppendErasesNothing(f, rs[0]);
      CopyErasesNothing(Exec(f, one.ops), rs[1..]);
      ErasesConcat(one.ops, CopyPlan(Exec(f, one.ops), rs[1..]).ops);
    }
  }

  lemma {:induction false} ThenErases(one: Plan, more: Plan)
    requires one.final == FLASH_COMPLETE
    ensures Erases(one.Then(more).ops) == Erases(one.ops) + Erases(more.ops)
  {
    ErasesConcat(one.ops, more.ops);
  }

  lemma {:induction false} PromoteErases(w: PageId)
    ensures Erases(PromotePlan(w).ops) == 1
  {
    var ops := PromotePlan(w).ops;
    assert ops[1..] == [ops[1]] && ops[1..][1..] == [];
    assert Erases(ops[1..]) == 0;
  }

  lemma {:induction false} MarkErasesNothing(w: PageId)
    ensures Erases([Program(w, 0, RECEIVE_DATA)]) == 0
  {
    assert [Program(w, 0, RECEIVE_DATA)][1..] == [];
  }

  /** Filling a new page and switching to it erases the old one. */
  lemma {:induction false} FillErases(g: Flash, table: seq<HalfWord>, v: PageId, r: Record)
    requires g.Shaped() && Interrupted(g, table, v) && GoodTable(table) && r.tag in table && |table| < Slots(g.page0)
    requires Used(g.At(v.Other())) == 1 && TagAt(g.At(v.Other()), 1) == ERASED
    ensures Erases(FillPlan(g, table, v, r).ops) == 1
  {
    hide Erases, Interrupted, Used, AppendPlan, Exec, CopyPlan, Survivors, StoreOf, Committed, PromotePlan, TagAt,
         LegalRun, Mounted, Switched;
    var first := AppendPlan(g, r);
    var h := Exec(g, first.ops);
    var copy := CopyPlan(h, Survivors(table, 0, StoreOf(g.At(v)), r.tag));
    FirstCut(g, table, v, r, 2);
    CopyAndSwitchCut(h, table, v, r.tag, 0);
    AppendErasesNothing(g, r);
    CopyErasesNothing(h, Survivors(table, 0, StoreOf(g.At(v)), r.tag));
    PromoteErases(v.Other());
    ThenErases(copy, PromotePlan(v.Other()));
    ThenErases(first, copy.Then(PromotePlan(v.Other())));
  }

  /** A write erases one page if it has to change pages and none otherwise. */
  lemma {:induction false} WriteErases(f: Flash, table: seq<HalfWord>, v: PageId, r: Record)
    requires f.Shaped() && Mounted(f, table, v) && GoodTable(table) && r.tag in table && |table| < Slots(f.page0)
    ensures Erases(WritePlan(f, table, r).ops) == if Used(f.At(v)) < Slots(f.At(v)) then 0 else 1
  {
    hide Erases, Interrupted, Used, AppendPlan, Exec, FillPlan, StoreOf, Committed, TagAt, LegalRun, Mounted, Legal, Do;
    AppendErasesNothing(f, r);
    if Used(f.At(v)) < Slots(f.At(v)) {
      AppendInPlaceCut(f, table, v, r, 0);
    } else {
      var mark := Program(v.Other(), 0, RECEIVE_DATA);
      FullPage(f, table, v, r);
      MountedFacts(f, table, v);
      MarkInterrupts(f, table, v);
      ExecOne(f, mark);
      FillErases(Do(f, mark), table, v, r);
      MarkErasesNothing(v.Other());
      ThenErases(All([mark]), FillPlan(Do(f, mark), table, v, r));
    }
  }

  function WriteAll(f: Flash, table: seq<HalfWord>, ws: seq<Record>): (g: Flash)
    requires f.Shaped()
    ensures |g.page0| == |f.page0| && |g.page1| == |f.page1|
    decreases |ws|
  {
    if ws == [] then f else WriteAll(Exec(f, WritePlan(f, table, ws[0]).ops), table, ws[1..])
  }

  /** How many page erases the writes cause. */
  function Wear(f: Flash, table: seq<HalfWord>, ws: seq<Record>): nat
    requires f.Shaped()
    decreases |ws|
  {
    if ws == [] then 0
    else
      var ops := WritePlan(f, table, ws[0]).ops;
      Erases(ops) + Wear(Exec(f, ops), table, ws[1..])
  }

  /** The wear bound: with S records to a page and NB variables, n writes to a page that already holds
      u records erase at most t pages, where t (S - NB + 1) + NB <= n + u. */
  lemma {:induction false} WearBound(f: Flash, table: seq<HalfWord>, v: PageId, ws: seq<Record>)
    requires f.Shaped() && Mounted(f, table, v) && GoodTable(table) && |table| < Slots(f.page0)
    requires forall i :: 0 <= i < |ws| ==> ws[i].tag in table
    ensures var s, nb, t := Slots(f.page0) - 1, |table|, Wear(f, table, ws);
            t > 0 ==> t * (s - nb + 1) + nb <= |ws| + (Used(f.At(v)) - 1)
    decreases |ws|
  {
    hide Holds, Committed, Used, WritePlan, Exec, Mounted, Erases;
    if ws != [] {
      var ops := WritePlan(f, table, ws[0]).ops;
      var g := Exec(f, ops);
      var room := Used(f.At(v)) < Slots(f.At(v));
      var v' := if room then v else v.Other();
      assert ops[..|ops|] == ops;
      WriteErases(f, table, v, ws[0]);
      WriteCut(f, table, v, ws[0], |ops|);
      WearBound(g, table, v', ws[1..]);
      var t, step := Wear(g, table, ws[1..]), Slots(f.page0) - |table|;
      assert (t + 1) * step == t * step + step;
      UsedAtLeastHeader(f, table, v);
    }
  }

  lemma {:induction false} UsedAtLeastHeader(f: Flash, table: seq<HalfWord>, v: PageId)
    requires Mounted(f, table, v)
    ensures 1 <= Used(f.At(v)) <= Slots(f.At(v))
  {
  }

  /** From a freshly formatted store. */
  lemma {:induction false} FormattedWearBound(f: Flash, table: seq<HalfWord>, ws: seq<Record>)
    requires Virgin(f) && GoodTable(table) && |table| < Slots(f.page0)
    requires forall i :: 0 <= i < |ws| ==> ws[i].tag in table
    ensures var g := Exec(f, InitPlan(f, table).ops);
            var s, nb, t := Slots(f.page0) - 1, |table|, Wear(g, table, ws);
            t > 0 ==> t * (s - nb + 1) + nb <= |ws|
  {
    hide Exec, Wear, Mounted, Used, InitPlan, Committed, LegalRun, Doubled, StoreOf;
    FormatCut(f, table, 3);
    assert FORMAT_PLAN.ops[..3] == FORMAT_PLAN.ops;
    WearBound(Exec(f, InitPlan(f, table).ops), table, Page0, ws);
  }

  /** Every variable of the table has been written. */
  ghost predicate AllLive(f: Flash, table: seq<HalfWord>, v: PageId) {
    Mounted(f, table, v) && forall a :: a in table ==> a in StoreOf(f.At(v))
  }

  lemma {:induction false} SurvivorsOfAll(table: seq<HalfWord>, i: nat, m: Store, skip: HalfWord)
    requires GoodTable(table) && i <= |table| && forall a :: a in table ==> a in m
    ensures |Survivors(table, i, m, skip)| == |table| - i - (if skip in table[i..] then 1 else 0)
    decreases |table| - i
  {
    if i < |table| {
      SurvivorsOfAll(table, i + 1, m, skip);
      assert table[i..] == [table[i]] + table[i + 1..];
      assert table[i] !in table[i + 1..];
    }
  }

  /** The rest of a transfer of a full table, once its first record is written. */
  lemma {:induction false} CopyOfAll(h: Flash, table: seq<HalfWord>, v: PageId, tag: HalfWord)
    requires h.Shaped() && Interrupted(h, table, v) && GoodTable(table) && tag in table && |table| < Slots(h.page0)
    requires Used(h.At(v.Other())) == 2 && TagAt(h.At(v.Other()), 1) == tag
    requires forall a :: a in table ==> a in StoreOf(h.At(v))
    ensures var copy := CopyPlan(h, Survivors(table, 0, StoreOf(h.At(v)), tag));
            Used(Exec(h, copy.Then(PromotePlan(v.Other())).ops).At(v.Other())) == |table| + 1
  {
    hide Holds, Committed, Used, Exec, Mounted, CopyPlan, Survivors, StoreOf, Interrupted, Receiving, Copies,
         Restricted, TagAt;
    var w := v.Other();
    var rs := Survivors(table, 0, StoreOf(h.At(v)), tag);
    var c := Exec(h, CopyPlan(h, rs).ops);
    SurvivorsAre(table, 0, StoreOf(h.At(v)), tag);
    SurvivorsOfAll(table, 0, StoreOf(h.At(v)), tag);
    assert table[0..] == table;
    InterruptedReceives(h, table, v);
    CopyAll(h, table, v, rs);
    ResumeCopies(h, table, v);
    ContinuesFacts(h, c, table, v, Missing(h, table, v));
    EraseThenMark(c, table, v);
    ExecTwo(c, Erase(v), Program(w, 0, VALID_PAGE));
    ThenExec(h, CopyPlan(h, rs), PromotePlan(w));
  }

  /** A transfer of a full table leaves exactly one record per variable. */
  lemma {:induction false} TransferOfAll(f: Flash, table: seq<HalfWord>, v: PageId, r: Record)
    requires f.Shaped() && AllLive(f, table, v) && GoodTable(table) && r.tag in table && |table| < Slots(f.page0)
    requires Used(f.At(v)) >= Slots(f.At(v))
    ensures Used(Exec(f, WritePlan(f, table, r).ops).At(v.Other())) == |table| + 1
  {
    hide Holds, Committed, Used, AppendPlan, Exec, Mounted, CopyPlan, Survivors, StoreOf, Interrupted, TagAt;
    var w := v.Other();
    var mark := Program(w, 0, RECEIVE_DATA);
    var g := Exec(f, [mark]);
    ExecOne(f, mark);
    FullPage(f, table, v, r);
    MountedFacts(f, table, v);
    MarkInterrupts(f, table, v);
    var first := AppendPlan(g, r);
    var h := Exec(g, first.ops);
    FirstCut(g, table, v, r, 2);
    assert first.ops[..2] == first.ops;
    CopyOfAll(h, table, v, r.tag);
    ThenExec(g, first, CopyPlan(h, Survivors(table, 0, StoreOf(g.At(v)), r.tag)).Then(PromotePlan(w)));
    ThenExec(f, All([mark]), FillPlan(g, table, v, r));
  }

  lemma {:induction false} WritesInTurn(f: Flash, table: seq<HalfWord>, a: seq<Record>, b: seq<Record>)
    requires f.Shaped()
    ensures WriteAll(f, table, a + b) == WriteAll(WriteAll(f, table, a), table, b)
    ensures Wear(f, table, a + b) == Wear(f, table, a) + Wear(WriteAll(f, table, a), table, b)
    decreases |a|
  {
    hide WritePlan, Exec;
    if a == [] {
      assert a + b == b;
    } else {
      assert (a + b)[0] == a[0] && (a + b)[1..] == a[1..] + b;
      WritesInTurn(Exec(f, WritePlan(f, table, a[0]).ops), table, a[1..], b);
    }
  }

  /** Writes that fit on the page in use wear nothing and use up one word each. */
  lemma {:induction false} QuietWrites(f: Flash, table: seq<HalfWord>, v: PageId, ws: seq<Record>)
    requires f.Shaped() && Mounted(f, table, v) && GoodTable(table) && |table| < Slots(f.page0)
    requires Used(f.At(v)) + |ws| <= Slots(f.At(v)) && forall i :: 0 <= i < |ws| ==> ws[i].tag in table
    ensures var g := WriteAll(f, table, ws);
            && Mounted(g, table, v) && Used(g.At(v)) == Used(f.At(v)) + |ws| && Wear(f, table, ws) == 0
            && StoreOf(f.At(v)).Keys <= StoreOf(g.At(v)).Keys
            && forall i :: 0 <= i < |ws| ==> ws[i].tag in StoreOf(g.At(v))
    decreases |ws|
  {
    hide Holds, Committed, Used, WritePlan, Exec, Mounted, Erases, StoreOf;
    if ws != [] {
      var ops := WritePlan(f, table, ws[0]).ops;
      var g := Exec(f, ops);
      assert ops[..|ops|] == ops;
      WriteErases(f, table, v, ws[0]);
      WriteCut(f, table, v, ws[0], |ops|);
      MountedFacts(f, table, v);
      MountedFacts(g, table, v);
      QuietWrites(g, table, v, ws[1..]);
      assert forall i :: 1 <= i < |ws| ==> ws[i] == ws[1..][i - 1];
    }
  }

  /** One write to a full page of a full table: one erase, and one record per variable again. */
  lemma {:induction false} TurnPage(f: Flash, table: seq<HalfWord>, v: PageId, r: Record)
    requires f.Shaped() && AllLive(f, table, v) && GoodTable(table) && r.tag in table && |table| < Slots(f.page0)
    requires Used(f.At(v)) == Slots(f.At(v))
    ensures var g := WriteAll(f, table, [r]);
            AllLive(g, table, v.Other()) && Used(g.At(v.Other())) == |table| + 1 && Wear(f, table, [r]) == 1
  {
    hide Holds, Committed, Used, WritePlan, Exec, Mounted, Erases, StoreOf;
    var ops := WritePlan(f, table, r).ops;
    var g := Exec(f, ops);
    assert ops[..|ops|] == ops && [r][1..] == [];
    assert WriteAll(f, table, [r]) == WriteAll(g, table, []);
    assert Wear(f, table, [r]) == Erases(ops) + Wear(g, table, []);
    WriteErases(f, table, v, r);
    WriteCut(f, table, v, r, |ops|);
    MountedFacts(f, table, v);
    MountedFacts(g, table, v.Other());
    TransferOfAll(f, table, v, r);
  }

  /** Repeating one record, fill the page and turn it, `t` times over. */
  lemma {:induction false} TurnPages(f: Flash, table: seq<HalfWord>, v: PageId, r: Record,
                                     t: nat) returns (ws: seq<Record>)
    requires f.Shaped() && AllLive(f, table, v) && GoodTable(table) && r.tag in table && |table| < Slots(f.page0)
    requires Used(f.At(v)) == |table| + 1
    ensures |ws| == t * (Slots(f.page0) - |table|) && Wear(f, table, ws) == t
    ensures forall i :: 0 <= i < |ws| ==> ws[i] == r
    decreases t
  {
    hide Holds, Committed, Used, WritePlan, Exec, Mounted, Erases, StoreOf;
    ws := [];
    if t > 0 {
      var s := Slots(f.page0);
      var fill := seq(s - |table| - 1, _ => r);
      var g := WriteAll(f, table, fill);
      QuietWrites(f, table, v, fill);
      assert AllLive(g, table, v);
      TurnPage(g, table, v, r);
      WritesInTurn(f, table, fill, [r]);
      var h := WriteAll(f, table, fill + [r]);
      var rest := TurnPages(h, table, v.Other(), r, t - 1);
      WritesInTurn(f, table, fill + [r], rest);
      ws := fill + [r] + rest;
      assert t * (s - |table|) == (t - 1) * (s - |table|) + (s - |table|);
    }
  }

  /** The wear bound is attained, for every number of erases. */
  lemma {:induction false} WearBoundIsTight(f: Flash, table: seq<HalfWord>, t: nat) returns (ws: seq<Record>)
    requires Virgin(f) && GoodTable(table) && 0 < |table| < Slots(f.page0)
    ensures forall i :: 0 <= i < |ws| ==> ws[i].tag in table
    ensures var g := Exec(f, InitPlan(f, table).ops);
            var s, nb := Slots(f.page0) - 1, |table|;
            Wear(g, table, ws) == t && t * (s - nb + 1) + nb == |ws|
  {
    hide Exec, Wear, Mounted, Used, WriteAll, StoreOf, InitPlan, Committed, LegalRun, Doubled, Switched;
    FormatCut(f, table, 3);
    assert FORMAT_PLAN.ops[..3] == FORMAT_PLAN.ops;
    var g := Exec(f, InitPlan(f, table).ops);
    var first := seq(|table|, i requires 0 <= i < |table| => Record(table[i], 0));
    QuietWrites(g, table, Page0, first);
    var h := WriteAll(g, table, first);
    forall a | a in table
      ensures a in StoreOf(h.At(Page0))
    {
      var i :| 0 <= i < |table| && table[i] == a;
      assert first[i].tag == a;
    }
    var rest := TurnPages(h, table, Page0, first[0], t);
    WritesInTurn(g, table, first, rest);
    ws := first + rest;
  }
}
