/** One flash page read as an append-only log of (data, tag) records.

    Word 0 holds the page header; word k (k >= 1) holds the data half-word of record k at half-word
    2k and the virtual address, its tag, at half-word 2k+1.  The writer scans forwards for the first
    word that is 0xFFFFFFFF, the reader scans backwards for the last matching tag. */
module PageLog {
  import opened Basics
  import opened FlashMemory

  datatype Record = Record(tag: HalfWord, data: HalfWord)

  type Store = map<HalfWord, HalfWord>

  function Slots(p: Page): nat {
    |p| / 2
  }

  function TagAt(p: Page, k: nat): HalfWord
    requires k < Slots(p)
  {
    p[2 * k + 1]
  }

  function DataAt(p: Page, k: nat): HalfWord
    requires k < Slots(p)
  {
    p[2 * k]
  }

  predicate BlankSlot(p: Page, k: nat)
    requires k < Slots(p)
  {
    DataAt(p, k) == ERASED && TagAt(p, k) == ERASED
  }

  /** The word the writer stops at: the first blank one from `k` on, or the page's end. */
  function FirstBlank(p: Page, k: nat): (n: nat)
    requires k <= Slots(p)
    ensures k <= n <= Slots(p)
    ensures n < Slots(p) ==> BlankSlot(p, n)
    ensures forall i: nat :: k <= i < n ==> !BlankSlot(p, i)
    decreases Slots(p) - k
  {
    if k == Slots(p) || BlankSlot(p, k) then k else FirstBlank(p, k + 1)
  }

  /** The writer's scan by half-word addresses, from `address` on. */
  lemma {:induction false} ScanStep(p: Page, address: nat)
    requires |p| % 2 == 0 && address % 2 == 0 && address <= |p|
    ensures FirstBlank(p, address / 2) ==
            if address == |p| || (p[address] == ERASED && p[address + 1] == ERASED) then address / 2
            else FirstBlank(p, (address + 2) / 2)
  {
    assert (address + 2) / 2 == address / 2 + 1 && 2 * (address / 2) == address;
  }

  /** The reader: searches records k-1 down to 1 for a tag. */
  function Lookup(p: Page, tag: HalfWord, k: nat): Option<HalfWord>
    requires k <= Slots(p)
  {
    if k <= 1 then None
    else if TagAt(p, k - 1) == tag then Some(DataAt(p, k - 1))
    else Lookup(p, tag, k - 1)
  }

  /** The reader's scan by half-word addresses, from the tag at `address` down. */
  lemma {:induction false} SearchStep(p: Page, tag: HalfWord, address: nat)
    requires address % 2 == 1 && address < |p|
    ensures Lookup(p, tag, (address + 1) / 2) ==
            if address == 1 then None
            else if p[address] == tag then Some(p[address - 1])
            else Lookup(p, tag, (address - 1) / 2)
  {
    assert (address - 1) / 2 == (address + 1) / 2 - 1 && 2 * ((address - 1) / 2) == address - 1;
  }

  /** The meaning of a page: records 1 to k-1 replayed in the order in which they were written. */
  function StoreUpTo(p: Page, k: nat): Store
    requires k <= Slots(p)
  {
    if k <= 1 then map[]
    else
      var m := StoreUpTo(p, k - 1);
      if TagAt(p, k - 1) == ERASED then m else m[TagAt(p, k - 1) := DataAt(p, k - 1)]
  }

  function StoreOf(p: Page): Store {
    StoreUpTo(p, Slots(p))
  }

  function Get(m: Store, tag: HalfWord): Option<HalfWord> {
    if tag in m then Some(m[tag]) else None
  }

  /** Scanning backwards for a tag finds what replaying the log forwards leaves under it. */
  lemma {:induction false} BackwardReadIsForwardReplay(p: Page, tag: HalfWord, k: nat)
    requires k <= Slots(p) && tag != ERASED
    ensures Lookup(p, tag, k) == Get(StoreUpTo(p, k), tag)
  {
    if k > 1 {
      BackwardReadIsForwardReplay(p, tag, k - 1);
    }
  }

  /** Words 0 to n-1 are in use and all others are blank: blank words form a suffix. */
  ghost predicate IsLog(p: Page, n: nat) {
    && |p| % 2 == 0
    && 1 <= n <= Slots(p)
    && (forall k: nat :: k < n ==> !BlankSlot(p, k))
    && (forall k: nat :: n <= k < Slots(p) ==> BlankSlot(p, k))
  }

  lemma {:induction false} LogUsed(p: Page, n: nat)
    requires IsLog(p, n)
    ensures FirstBlank(p, 0) == n
  {
    assert n < Slots(p) ==> BlankSlot(p, n);
  }

  /** The replay of a log reads only the words below its bound. */
  lemma {:induction false} StoreFrame(p: Page, q: Page, k: nat)
    requires |p| == |q| && k <= Slots(p)
    requires forall i: nat :: 1 <= i < k ==> TagAt(p, i) == TagAt(q, i)
    requires forall i: nat :: 1 <= i < k && TagAt(p, i) != ERASED ==> DataAt(p, i) == DataAt(q, i)
    ensures StoreUpTo(p, k) == StoreUpTo(q, k)
  {
    if k > 1 {
      StoreFrame(p, q, k - 1);
    }
  }

  /** Words without a tag add nothing to the replay. */
  lemma {:induction false} UntaggedSuffix(p: Page, n: nat, k: nat)
    requires 1 <= n <= k <= Slots(p)
    requires forall i: nat :: n <= i < k ==> TagAt(p, i) == ERASED
    ensures StoreUpTo(p, k) == StoreUpTo(p, n)
  {
    if n < k {
      UntaggedSuffix(p, n, k - 1);
    }
  }

  /** Putting a record that repeats what the log says into a blank word, wherever that word is, does
      not change what the log says. */
  lemma {:induction false} RepeatedRecord(p: Page, n: nat, r: Record)
    requires 1 <= n < Slots(p) && BlankSlot(p, n) && r.tag != ERASED && Get(StoreOf(p), r.tag) == Some(r.data)
    ensures StoreOf(p[2 * n := r.data][2 * n + 1 := r.tag]) == StoreOf(p)
  {
    RecordBetween(p, n, r, Slots(p));
  }

  /** Up to word `k`, such a record is either the latest of its tag or overridden already. */
  lemma {:induction false} RecordBetween(p: Page, n: nat, r: Record, k: nat)
    requires 1 <= n < k <= Slots(p) && BlankSlot(p, n) && r.tag != ERASED
    ensures var m := StoreUpTo(p, k);
            StoreUpTo(p[2 * n := r.data][2 * n + 1 := r.tag], k) in {m, m[r.tag := r.data]}
    decreases k
  {
    var q := p[2 * n := r.data][2 * n + 1 := r.tag];
    assert forall i: nat :: i < Slots(p) && i != n ==> TagAt(q, i) == TagAt(p, i) && DataAt(q, i) == DataAt(p, i);
    if k == n + 1 {
      StoreFrame(p, q, n);
      assert TagAt(q, n) == r.tag && DataAt(q, n) == r.data && TagAt(p, n) == ERASED;
    } else {
      RecordBetween(p, n, r, k - 1);
      var m, tag, data := StoreUpTo(p, k - 1), TagAt(p, k - 1), DataAt(p, k - 1);
      assert m[r.tag := r.data][tag := data] ==
             if tag == r.tag then m[tag := data] else m[tag := data][r.tag := r.data];
    }
  }

  /** Programming both half-words of the first blank word appends one record. */
  lemma {:induction false} AppendRecord(p: Page, n: nat, r: Record)
    requires IsLog(p, n) && n < Slots(p) && r.tag != ERASED
    ensures var q := p[2 * n := r.data][2 * n + 1 := r.tag];
            && IsLog(q, n + 1)
            && StoreOf(q) == StoreOf(p)[r.tag := r.data]
            && (forall i: nat :: i < Slots(p) && i != n ==> TagAt(q, i) == TagAt(p, i) && DataAt(q, i) == DataAt(p, i))
            && TagAt(q, n) == r.tag && DataAt(q, n) == r.data
  {
    var q := p[2 * n := r.data][2 * n + 1 := r.tag];
    assert forall i: nat :: i < Slots(p) && i != n ==> TagAt(q, i) == TagAt(p, i) && DataAt(q, i) == DataAt(p, i);
    assert forall i: nat :: i < Slots(p) && i != n ==> BlankSlot(q, i) == BlankSlot(p, i);
    assert forall i: nat :: n <= i < Slots(p) && BlankSlot(p, i) ==> TagAt(p, i) == ERASED;
    StoreFrame(p, q, n);
    UntaggedSuffix(p, n, Slots(p));
    UntaggedSuffix(q, n + 1, Slots(p));
  }

  /** A record torn after its data half-word has no tag: it may use up a word, but it is invisible. */
  lemma {:induction false} TornRecord(p: Page, n: nat, data: HalfWord)
    requires IsLog(p, n) && n < Slots(p)
    ensures var q := p[2 * n := data];
            && IsLog(q, if data == ERASED then n else n + 1)
            && StoreOf(q) == StoreOf(p)
            && (forall i: nat :: i < Slots(p) ==> TagAt(q, i) == TagAt(p, i))
            && (forall i: nat :: i < Slots(p) && i != n ==> DataAt(q, i) == DataAt(p, i))
            && TagAt(q, n) == ERASED
  {
    var q := p[2 * n := data];
    assert BlankSlot(p, n);
    assert forall i: nat :: i < Slots(p) && i != n ==> TagAt(q, i) == TagAt(p, i) && DataAt(q, i) == DataAt(p, i);
    assert TagAt(q, n) == ERASED && DataAt(q, n) == data;
    assert forall i: nat :: i < Slots(p) && i != n ==> BlankSlot(q, i) == BlankSlot(p, i);
    StoreFrame(p, q, Slots(p));
  }
}
