/** What appending and copying records does to the flash, wherever it is cut short. */
module EepromRecovery {
  import opened Basics
  import opened FlashMemory
  import opened PageLog
  import opened EepromPlan
  import opened EepromPhases

  function Torn(p: Page, n: nat, r: Record): Page
    requires 2 * n + 1 < |p|
  {
    p[2 * n := r.data]
  }

  function Appended(p: Page, n: nat, r: Record): Page
    requires 2 * n + 1 < |p|
  {
    p[2 * n := r.data][2 * n + 1 := r.tag]
  }

  /** The three flash contents an append can leave, and that it programs erased cells only. */
  lemma {:induction false} AppendExec(f: Flash, w: PageId, r: Record, table: seq<HalfWord>, h: HalfWord)
    requires f.Shaped() && WritePage(f) == Some(w) && Holds(f.At(w), h, table)
    ensures var p := f.At(w);
            var n := Used(p);
            var plan := AppendPlan(f, r);
            && 1 <= n <= Slots(p)
            && (n == Slots(p) ==> plan == Plan([], PAGE_FULL))
            && (n < Slots(p) ==>
                  && plan.final == FLASH_COMPLETE && |plan.ops| == 2
                  && Exec(f, plan.ops[..0]) == f
                  && Exec(f, plan.ops[..1]) == f.With(w, Torn(p, n, r))
                  && Exec(f, plan.ops[..2]) == f.With(w, Appended(p, n, r))
                  && Exec(f, plan.ops) == f.With(w, Appended(p, n, r)))
            && LegalRun(f, plan.ops)
  {
    var p := f.At(w);
    var n := Used(p);
    var plan := AppendPlan(f, r);
    if n < Slots(p) {
      assert BlankSlot(p, n);
      BurnFacts(r.data);
      BurnFacts(r.tag);
      var a, b := plan.ops[0], plan.ops[1];
      assert plan.ops[..1] == [a] && plan.ops[..2] == plan.ops == [a, b];
      assert Exec(f, [a]) == Do(f, a) by {
        assert [a][1..] == [];
      }
      ExecTwo(f, a, b);
      assert plan.ops[1..] == [b] && [b][1..] == [];
      assert LegalRun(Do(f, a), [b]);
    }
  }

  lemma {:induction false} AppendHolds(p: Page, h: HalfWord, r: Record, table: seq<HalfWord>)
    requires Holds(p, h, table) && Used(p) < Slots(p) && r.tag in table && GoodTable(table)
    ensures var n := Used(p);
            && 1 <= n
            && var t, q := Torn(p, n, r), Appended(p, n, r);
            && Holds(t, h, table) && StoreOf(t) == StoreOf(p)
            && Used(t) == Used(p) + (if r.data == ERASED then 0 else 1)
            && Holds(q, h, table) && StoreOf(q) == StoreOf(p)[r.tag := r.data] && Used(q) == Used(p) + 1
            && TagAt(t, n) == ERASED && TagAt(q, n) == r.tag && DataAt(q, n) == r.data
            && (forall k: nat :: k < Slots(p) && k != n ==>
                  && TagAt(t, k) == TagAt(p, k) && DataAt(t, k) == DataAt(p, k)
                  && TagAt(q, k) == TagAt(p, k) && DataAt(q, k) == DataAt(p, k))
  {
    var n := Used(p);
    AppendRecord(p, n, r);
    TornRecord(p, n, r.data);
    LogUsed(Appended(p, n, r), n + 1);
    LogUsed(Torn(p, n, r), if r.data == ERASED then n else n + 1);
  }

  /** Records that repeat what `m` says, each for a different variable, none of them `skip`. */
  ghost predicate Copies(rs: seq<Record>, m: Store, skip: HalfWord, table: seq<HalfWord>) {
    && (forall i :: 0 <= i < |rs| ==>
          rs[i].tag in m && rs[i].data == m[rs[i].tag] && rs[i].tag != skip && rs[i].tag in table)
    && (forall i, j :: 0 <= i < j < |rs| ==> rs[i].tag != rs[j].tag)
  }

  lemma {:induction false} Copied(rs: seq<Record>, m: Store, skip: HalfWord, table: seq<HalfWord>, i: nat)
    requires Copies(rs, m, skip, table) && i < |rs|
    ensures rs[i].tag in m && rs[i].data == m[rs[i].tag] && rs[i].tag != skip && rs[i].tag in table
  {
  }

  function Tags(rs: seq<Record>): set<HalfWord> {
    set i | 0 <= i < |rs| :: rs[i].tag
  }

  /** On the receiving page: a copied record, complete or torn, keeps the page faithful to `m`. */
  lemma {:induction false} ReceiveOne(p: Page, m: Store, r: Record, table: seq<HalfWord>)
    requires Holds(p, RECEIVE_DATA, table) && Used(p) < Slots(p) && Faithful(p, m) && GoodTable(table)
    requires Copies([r], m, TagAt(p, 1), table)
    ensures var n := Used(p);
            && 1 <= n
            && Faithful(Torn(p, n, r), m) && Faithful(Appended(p, n, r), m)
  {
    assert r == [r][0];
    AppendHolds(p, RECEIVE_DATA, r, table);
    assert BlankSlot(p, Used(p));
    if Used(p) == 1 {
      assert forall i: nat :: 1 <= i < Slots(p) && BlankSlot(p, i) ==> TagAt(p, i) == ERASED;
    }
  }

  /** A page on which no word is used says nothing. */
  lemma {:induction false} UnusedIsEmpty(p: Page, h: HalfWord, table: seq<HalfWord>)
    requires Holds(p, h, table) && Used(p) == 1
    ensures StoreOf(p) == map[] && TagAt(p, 1) == ERASED
  {
    assert forall i: nat :: 1 <= i < Slots(p) ==> BlankSlot(p, i);
    assert forall i: nat :: 1 <= i < Slots(p) && BlankSlot(p, i) ==> TagAt(p, i) == ERASED;
    UntaggedSuffix(p, 1, Slots(p));
  }

  /** The only write the receiving page takes to no effect: it is not record 1 and not of its variable,
      so EE_Init copies the old value over it. */
  predicate Outvoted(p: Page, m: Store, r: Record)
    requires Slots(p) >= 2
  {
    Used(p) > 1 && r.tag in m && r.tag != TagAt(p, 1)
  }

  /** What a record appended to the receiving page, complete or torn, does to the store that EE_Init is
      going to leave. */
  lemma {:induction false} ReceiveAny(p: Page, m: Store, r: Record, table: seq<HalfWord>)
    requires Holds(p, RECEIVE_DATA, table) && Used(p) < Slots(p) && GoodTable(table) && r.tag in table && ERASED !in m
    ensures var n := Used(p);
            && 1 <= n
            && var t, q := Torn(p, n, r), Appended(p, n, r);
            && Merged(t, m) == Merged(p, m)
            && Merged(q, m) == (if Outvoted(p, m, r) then Merged(p, m) else Merged(p, m)[r.tag := r.data])
            && TagAt(q, 1) in {TagAt(p, 1), r.tag}
            && (n >= 2 ==> TagAt(t, 1) == TagAt(q, 1) == TagAt(p, 1))
  {
    hide StoreOf, Used, Holds;
    AppendHolds(p, RECEIVE_DATA, r, table);
    if Used(p) == 1 {
      UnusedIsEmpty(p, RECEIVE_DATA, table);
    }
  }

  /** A copied record leaves that store as it is. */
  lemma {:induction false} ReceiveCopy(p: Page, m: Store, r: Record, table: seq<HalfWord>)
    requires Holds(p, RECEIVE_DATA, table) && Used(p) < Slots(p) && GoodTable(table) && ERASED !in m
    requires Copies([r], m, TagAt(p, 1), table)
    ensures var n := Used(p);
            && 1 <= n
            && Merged(Torn(p, n, r), m) == Merged(p, m) && Merged(Appended(p, n, r), m) == Merged(p, m)
            && TagAt(Appended(p, n, r), 1) in {TagAt(p, 1), r.tag}
            && (n >= 2 ==> TagAt(Torn(p, n, r), 1) == TagAt(Appended(p, n, r), 1) == TagAt(p, 1))
  {
    hide StoreOf, Used, Holds, Torn, Appended;
    assert r == [r][0];
    ReceiveAny(p, m, r, table);
    assert r.tag in Merged(p, m) && Merged(p, m)[r.tag] == r.data;
  }

  /** From `f` to `g` the transfer out of page `v` got on by at most `n` words: it is still under way
      and stands for the same store. */
  ghost predicate Continues(f: Flash, g: Flash, table: seq<HalfWord>, v: PageId, n: nat) {
    && Receiving(f, table, v) && Receiving(g, table, v)
    && (Interrupted(f, table, v) ==> Interrupted(g, table, v))
    && Committed(g) == Committed(f) && g.At(v) == f.At(v)
    && Used(f.At(v.Other())) <= Used(g.At(v.Other())) <= Used(f.At(v.Other())) + n
    && (Used(f.At(v.Other())) >= 2 ==> TagAt(g.At(v.Other()), 1) == TagAt(f.At(v.Other()), 1))
  }

  lemma {:induction false} ContinuesFacts(f: Flash, g: Flash, table: seq<HalfWord>, v: PageId, n: nat)
    requires Continues(f, g, table, v, n)
    ensures Receiving(g, table, v) && g.At(v) == f.At(v) && g.Shaped()
    ensures Interrupted(f, table, v) ==> Interrupted(g, table, v)
  {
  }

  /** Appending one copied record, cut anywhere: the transfer is still under way and stands for the
      same store. */
  lemma {:induction false} CopyOneCut(f: Flash, table: seq<HalfWord>, v: PageId, r: Record, k: nat)
    requires Receiving(f, table, v) && GoodTable(table)
    requires Copies([r], StoreOf(f.At(v)), TagAt(f.At(v.Other()), 1), table)
    requires k <= |AppendPlan(f, r).ops|
    ensures var w := v.Other();
            var plan := AppendPlan(f, r);
            var g := Exec(f, plan.ops[..k]);
            && Continues(f, g, table, v, 1)
            && LegalRun(f, plan.ops)
            && (if Used(f.At(w)) < Slots(f.At(w)) then |plan.ops| == 2 && plan.final == FLASH_COMPLETE
                else plan == Plan([], PAGE_FULL))
            && (k == 2 ==>
                  && g == Exec(f, plan.ops)
                  && StoreOf(g.At(w)) == StoreOf(f.At(w))[r.tag := r.data]
                  && Used(g.At(w)) == Used(f.At(w)) + 1
                  && TagAt(g.At(w), 1) in {TagAt(f.At(w), 1), r.tag})
  {
    hide StoreOf, Used, Copies, AppendPlan, Exec, LegalRun, Holds, Faithful, Merged, Committed, Torn, Appended,
         WritePage;
    var w := v.Other();
    var p := f.At(w);
    assert r.tag in table by {
      assert [r][0] == r;
      Copied([r], StoreOf(f.At(v)), TagAt(p, 1), table, 0);
    }
    ReceivingFacts(f, table, v);
    AppendExec(f, w, r, table, RECEIVE_DATA);
    if Used(p) < Slots(p) {
      var g := Exec(f, AppendPlan(f, r).ops[..k]);
      AppendHolds(p, RECEIVE_DATA, r, table);
      ErasedHasNoValue(f, table, v);
      ReceiveCopy(p, StoreOf(f.At(v)), r, table);
      if Interrupted(f, table, v) {
        ReceiveOne(p, StoreOf(f.At(v)), r, table);
      }
      assert k == 0 || k == 1 || k == 2;
      assert Receiving(g, table, v);
      ReceivingFacts(g, table, v);
    } else {
      assert AppendPlan(f, r).ops[..k] == [];
      assert Exec(f, []) == f by {
        ExecNothing(f);
      }
    }
  }

  lemma {:induction false} ErasedHasNoValue(f: Flash, table: seq<HalfWord>, v: PageId)
    requires Receiving(f, table, v) && GoodTable(table)
    ensures ERASED !in StoreOf(f.At(v))
  {
  }

  lemma {:induction false} CopiesRest(rs: seq<Record>, m: Store, skip: HalfWord, table: seq<HalfWord>,
                                      newSkip: HalfWord)
    requires Copies(rs, m, skip, table) && rs != [] && newSkip in {skip, rs[0].tag}
    ensures Copies(rs[..1], m, skip, table) && Copies([rs[0]], m, skip, table)
    ensures Copies(rs[1..], m, newSkip, table)
    ensures Tags(rs) == {rs[0].tag} + Tags(rs[1..])
  {
    assert forall i :: 0 <= i < |rs| - 1 ==> rs[1..][i] == rs[i + 1];
    forall t | t in Tags(rs)
      ensures t in {rs[0].tag} + Tags(rs[1..])
    {
      var i :| 0 <= i < |rs| && rs[i].tag == t;
      if i > 0 {
        assert rs[1..][i - 1].tag == t;
      }
    }
    forall t | t in Tags(rs[1..])
      ensures t in Tags(rs)
    {
      var i :| 0 <= i < |rs| - 1 && rs[1..][i].tag == t;
      assert rs[i + 1].tag == t;
    }
  }

  /** Copying records to the receiving page, cut anywhere: the transfer is still under way, stands for
      the same store, and used up at most one word per record. */
  lemma {:induction false} CopyCut(f: Flash, table: seq<HalfWord>, v: PageId, rs: seq<Record>, k: nat)
    requires Receiving(f, table, v) && GoodTable(table)
    requires Copies(rs, StoreOf(f.At(v)), TagAt(f.At(v.Other()), 1), table)
    requires k <= |CopyPlan(f, rs).ops|
    ensures Continues(f, Exec(f, CopyPlan(f, rs).ops[..k]), table, v, |rs|)
    decreases |rs|
  {
    hide Holds, Faithful, Committed, Copies, Tags, AppendPlan, Used, Exec, CopyPlan, StoreOf, TagAt;
    CopyUnfold(f, rs);
    if rs == [] {
      ExecNothing(f);
    } else {
      var skip := TagAt(f.At(v.Other()), 1);
      var one := AppendPlan(f, rs[0]);
      var g := Exec(f, one.ops);
      ThenCut(f, one, CopyPlan(g, rs[1..]), k);
      CopiesRest(rs, StoreOf(f.At(v)), skip, table, skip);
      CopyOneCut(f, table, v, rs[0], if k <= |one.ops| then k else |one.ops|);
      if k > |one.ops| {
        CopiesRest(rs, StoreOf(f.At(v)), skip, table, TagAt(g.At(v.Other()), 1));
        CopyCut(g, table, v, rs[1..], k - |one.ops|);
      }
    }
  }

  /** The part of `m` that is about the variables in `tags`. */
  function Restricted(m: Store, tags: set<HalfWord>): Store {
    map a | a in m && a in tags :: m[a]
  }

  lemma {:induction false} NothingRestricted(m: Store)
    ensures Restricted(m, {}) == map[]
  {
  }

  lemma {:induction false} RestrictedStep(s: Store, m: Store, tag: HalfWord, tags: set<HalfWord>)
    requires tag in m
    ensures s[tag := m[tag]] + Restricted(m, tags) == s + Restricted(m, {tag} + tags)
  {
  }

  /** Copying completes exactly if there is a free word for each record, and then overwrites what the
      page says; otherwise it fills the page. */
  lemma {:induction false} CopyAll(f: Flash, table: seq<HalfWord>, v: PageId, rs: seq<Record>)
    requires Receiving(f, table, v) && GoodTable(table)
    requires Copies(rs, StoreOf(f.At(v)), TagAt(f.At(v.Other()), 1), table)
    ensures var w := v.Other();
            var plan := CopyPlan(f, rs);
            var g := Exec(f, plan.ops);
            && g.At(v) == f.At(v)
            && (if Used(f.At(w)) + |rs| <= Slots(f.At(w)) then
                  && plan.final == FLASH_COMPLETE && |plan.ops| == 2 * |rs|
                  && StoreOf(g.At(w)) == StoreOf(f.At(w)) + Restricted(StoreOf(f.At(v)), Tags(rs))
                  && Used(g.At(w)) == Used(f.At(w)) + |rs|
                else
                  && plan.final == PAGE_FULL && |plan.ops| == 2 * (Slots(f.At(w)) - Used(f.At(w)))
                  && Used(g.At(w)) == Slots(g.At(w)))
    decreases |rs|
  {
    hide Holds, Faithful, Committed, Copies, Tags, AppendPlan, Used, Exec, CopyPlan, StoreOf, TagAt, Restricted;
    CopyUnfold(f, rs);
    if rs == [] {
      ExecNothing(f);
      ReceivingUsed(f, table, v);
      assert Tags(rs) == {} by {
        NoTags();
      }
      NothingRestricted(StoreOf(f.At(v)));
    } else {
      var w := v.Other();
      var skip := TagAt(f.At(w), 1);
      var one := AppendPlan(f, rs[0]);
      var g := Exec(f, one.ops);
      var rest := CopyPlan(g, rs[1..]);
      ThenExec(f, one, rest);
      CopiesRest(rs, StoreOf(f.At(v)), skip, table, skip);
      CopyOneCut(f, table, v, rs[0], |one.ops|);
      ContinuesFacts(f, g, table, v, 1);
      if Used(f.At(w)) < Slots(f.At(w)) {
        CopiesRest(rs, StoreOf(f.At(v)), skip, table, TagAt(g.At(w), 1));
        CopyAll(g, table, v, rs[1..]);
        Copied(rs, StoreOf(f.At(v)), skip, table, 0);
        RestrictedStep(StoreOf(f.At(w)), StoreOf(f.At(v)), rs[0].tag, Tags(rs[1..]));
      } else {
        ExecNothing(f);
        ReceivingUsed(f, table, v);
      }
    }
  }

  lemma {:induction false} CopyUnfold(f: Flash, rs: seq<Record>)
    requires f.Shaped()
    ensures CopyPlan(f, rs) == if rs == [] then All([])
                               else AppendPlan(f, rs[0]).Then(CopyPlan(Exec(f, AppendPlan(f, rs[0]).ops), rs[1..]))
  {
  }

  lemma {:induction false} NoTags()
    ensures Tags([]) == {}
  {
  }

  lemma {:induction false} ReceivingUsed(f: Flash, table: seq<HalfWord>, v: PageId)
    requires Receiving(f, table, v)
    ensures 1 <= Used(f.At(v.Other())) <= Slots(f.At(v.Other()))
  {
  }

  /** A faithful page says nothing that the source page, overridden by record 1, does not say. */
  lemma {:induction false} FaithfulStore(p: Page, m: Store, k: nat)
    requires Slots(p) >= 2 && Faithful(p, m) && 1 <= k <= Slots(p)
    ensures forall a :: a in StoreUpTo(p, k) ==>
              a in m + FirstRecord(p) && StoreUpTo(p, k)[a] == (m + FirstRecord(p))[a]
    ensures k >= 2 ==> FirstRecord(p).Keys <= StoreUpTo(p, k).Keys
  {
    if k > 1 {
      FaithfulStore(p, m, k - 1);
    }
  }

  /** So a transfer that no other write has intruded on stands for the old store, overridden by the
      record it began with. */
  lemma {:induction false} FaithfulMeans(p: Page, m: Store)
    requires Slots(p) >= 2 && Faithful(p, m) && ERASED !in m
    ensures Merged(p, m) == m + FirstRecord(p)
  {
    FaithfulStore(p, m, Slots(p));
  }

  function Live(table: seq<HalfWord>, i: nat, m: Store, skip: HalfWord): set<HalfWord>
    requires i <= |table|
  {
    set a | a in table[i..] && a in m && a != skip
  }

  lemma {:induction false} LiveStep(table: seq<HalfWord>, i: nat, m: Store, skip: HalfWord)
    requires i < |table|
    ensures Live(table, i, m, skip) ==
            (if table[i] != skip && table[i] in m then {table[i]} else {}) + Live(table, i + 1, m, skip)
  {
    assert table[i..] == [table[i]] + table[i + 1..];
    assert forall a :: a in table[i..] <==> a == table[i] || a in table[i + 1..];
  }

  /** The survivors are the table's variables that have a value, except `skip`, each once. */
  lemma {:induction false} SurvivorsAre(table: seq<HalfWord>, i: nat, m: Store, skip: HalfWord)
    requires GoodTable(table) && i <= |table|
    ensures var rs := Survivors(table, i, m, skip);
            && Copies(rs, m, skip, table)
            && Tags(rs) == Live(table, i, m, skip)
            && |rs| <= |table| - i
            && (skip in table[i..] ==> |rs| < |table| - i)
    decreases |table| - i
  {
    hide Copies, Tags, Live;
    var rs := Survivors(table, i, m, skip);
    if i == |table| {
      NoTags();
      NoCopies(m, skip, table);
      NothingLive(table, m, skip);
    } else {
      SurvivorsAre(table, i + 1, m, skip);
      var rest := Survivors(table, i + 1, m, skip);
      LiveStep(table, i, m, skip);
      assert table[i..] == [table[i]] + table[i + 1..];
      assert table[i] !in table[i + 1..];
      if rs != rest {
        NotLive(table, i, m, skip);
        ConsCopy(rs[0], rest, m, skip, table);
      }
    }
  }

  lemma {:induction false} NoCopies(m: Store, skip: HalfWord, table: seq<HalfWord>)
    ensures Copies([], m, skip, table)
  {
  }

  lemma {:induction false} NothingLive(table: seq<HalfWord>, m: Store, skip: HalfWord)
    ensures Live(table, |table|, m, skip) == {}
  {
  }

  lemma {:induction false} NotLive(table: seq<HalfWord>, i: nat, m: Store, skip: HalfWord)
    requires GoodTable(table) && i < |table|
    ensures table[i] !in Live(table, i + 1, m, skip)
  {
  }

  /** One more copied record, of a new variable, in front. */
  lemma {:induction false} ConsCopy(r: Record, rest: seq<Record>, m: Store, skip: HalfWord, table: seq<HalfWord>)
    requires Copies(rest, m, skip, table) && r.tag !in Tags(rest)
    requires r.tag in m && r.data == m[r.tag] && r.tag != skip && r.tag in table
    ensures Copies([r] + rest, m, skip, table) && Tags([r] + rest) == {r.tag} + Tags(rest)
  {
    var rs := [r] + rest;
    assert forall j :: 0 <= j < |rest| ==> rest[j].tag in Tags(rest);
    assert forall j :: 1 <= j < |rs| ==> rs[j] == rest[j - 1];
    assert Copies(rs, m, skip, table);
    CopiesRest(rs, m, skip, table, skip);
    assert rs[1..] == rest;
  }
}
