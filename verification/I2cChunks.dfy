/** How a write to the serial EEPROM is cut into transfers, and what a transfer does to the device.

    The device latches the bytes of one transfer into a page: the address counter wraps inside the
    page of 32 bytes that the first byte falls into. */
module I2cChunks {

  newtype Byte = x: int | 0 <= x < 0x100

  const PAGE_SIZE := 32

  /** One transfer: `len` bytes of the buffer from `offset` on, to device address `addr`. */
  datatype Chunk = Chunk(offset: nat, addr: nat, len: nat)

  function NextInPage(addr: nat): nat {
    addr - addr % PAGE_SIZE + (addr % PAGE_SIZE + 1) % PAGE_SIZE
  }

  /** A device is a whole number of pages. */
  predicate IsDevice(mem: seq<Byte>) {
    |mem| > 0 && |mem| % PAGE_SIZE == 0
  }

  /** What the device does with the bytes of one transfer. */
  function DeviceWrite(mem: seq<Byte>, addr: nat, data: seq<Byte>): (r: seq<Byte>)
    requires IsDevice(mem) && addr < |mem|
    ensures |r| == |mem|
    decreases |data|
  {
    if data == [] then mem else DeviceWrite(mem[addr := data[0]], NextInPage(addr), data[1..])
  }

  /** A copy to consecutive addresses. */
  function FlatWrite(mem: seq<Byte>, addr: nat, data: seq<Byte>): (r: seq<Byte>)
    requires addr + |data| <= |mem|
    ensures |r| == |mem|
  {
    mem[..addr] + data + mem[addr + |data|..]
  }

  lemma {:induction false} FlatNothing(mem: seq<Byte>, addr: nat)
    requires addr <= |mem|
    ensures FlatWrite(mem, addr, []) == mem
  {
  }

  lemma {:induction false} FlatByOne(mem: seq<Byte>, addr: nat, data: seq<Byte>)
    requires data != [] && addr + |data| <= |mem|
    ensures FlatWrite(mem, addr, data) == FlatWrite(mem[addr := data[0]], addr + 1, data[1..])
  {
    assert data == [data[0]] + data[1..];
    assert mem[addr := data[0]][..addr + 1] == mem[..addr] + [data[0]];
  }

  /** Inside one page the device writes to consecutive addresses. */
  lemma {:induction false} WithinPageIsFlat(mem: seq<Byte>, addr: nat, data: seq<Byte>)
    requires IsDevice(mem) && addr < |mem| && addr % PAGE_SIZE + |data| <= PAGE_SIZE
    ensures addr + |data| <= |mem|
    ensures DeviceWrite(mem, addr, data) == FlatWrite(mem, addr, data)
    decreases |data|
  {
    hide FlatWrite;
    if data == [] {
      FlatNothing(mem, addr);
    } else {
      FlatByOne(mem, addr, data);
      if |data| == 1 {
        FlatNothing(mem[addr := data[0]], addr + 1);
        assert data[1..] == [];
      } else {
        assert NextInPage(addr) == addr + 1;
        WithinPageIsFlat(mem[addr := data[0]], addr + 1, data[1..]);
      }
    }
  }

  /** A transfer that runs over the end of a page overwrites the page's beginning instead. */
  lemma {:induction false} CrossingWraps(mem: seq<Byte>, page: nat, x: Byte, y: Byte)
    requires IsDevice(mem) && PAGE_SIZE * page + PAGE_SIZE <= |mem|
    ensures DeviceWrite(mem, PAGE_SIZE * page + PAGE_SIZE - 1, [x, y]) ==
            mem[PAGE_SIZE * page + PAGE_SIZE - 1 := x][PAGE_SIZE * page := y]
  {
    var last := PAGE_SIZE * page + PAGE_SIZE - 1;
    assert NextInPage(last) == PAGE_SIZE * page;
    assert [x, y][1..] == [y] && [y][1..] == [];
    assert DeviceWrite(mem[last := x], PAGE_SIZE * page, [y])
           == DeviceWrite(mem[last := x][PAGE_SIZE * page := y], NextInPage(PAGE_SIZE * page), []);
  }

  function Min(a: int, b: int): int {
    if a < b then a else b
  }

  /** The reference: cut the range [addr, addr + n) at every page boundary. */
  function Pieces(offset: nat, addr: nat, n: nat): seq<Chunk>
    decreases n
  {
    if n == 0 then []
    else
      var len := Min(n, PAGE_SIZE - addr % PAGE_SIZE);
      [Chunk(offset, addr, len)] + Pieces(offset + len, addr + len, n - len)
  }

  /** `k` whole pages. */
  function WholePages(offset: nat, addr: nat, k: nat): seq<Chunk>
    decreases k
  {
    if k == 0 then []
    else [Chunk(offset, addr, PAGE_SIZE)] + WholePages(offset + PAGE_SIZE, (addr + PAGE_SIZE) % 0x1_0000, k - 1)
  }

  /** Whole pages and, if there is one, an incomplete last one. */
  function PagesAndRest(offset: nat, addr: nat, pages: nat, single: nat): seq<Chunk> {
    WholePages(offset, addr, pages)
    + (if single == 0 then [] else [Chunk(offset + PAGE_SIZE * pages, (addr + PAGE_SIZE * pages) % 0x1_0000, single)])
  }

  /** The transfers sEE_WriteBuffer issues.  Page and byte counters are 8 bits wide, addresses 16. */
  function Transfers(addr: nat, n: nat): seq<Chunk> {
    var inPage := addr % PAGE_SIZE;
    var count := PAGE_SIZE - inPage;
    var pages, single := n / PAGE_SIZE % 0x100, n % PAGE_SIZE;
    if inPage == 0 then
      if pages == 0 then [Chunk(0, addr, single)] else PagesAndRest(0, addr, pages, single)
    else if pages == 0 then
      if n > count then [Chunk(0, addr, count), Chunk(count, (addr + count) % 0x1_0000, (n - count) % 0x100)]
      else [Chunk(0, addr, single)]
    else
      [Chunk(0, addr, count)]
      + PagesAndRest(count, (addr + count) % 0x1_0000, (n - count) / PAGE_SIZE % 0x100, (n - count) % PAGE_SIZE)
  }

  /** What the branches for an address inside a page issue. */
  lemma {:induction false} UnalignedPlan(addr: nat, n: nat)
    requires addr % PAGE_SIZE != 0
    ensures var plan, count, pages := Transfers(addr, n), PAGE_SIZE - addr % PAGE_SIZE, n / PAGE_SIZE % 0x100;
            && 0 < count < PAGE_SIZE
            && if pages == 0 then
                 if n > count then
                   plan == [Chunk(0, addr, count), Chunk(count, (addr + count) % 0x1_0000, (n - count) % 0x100)]
                 else plan == [Chunk(0, addr, n % PAGE_SIZE)]
               else
                 && n > count && plan != [] && plan[0] == Chunk(0, addr, count)
                 && plan[1..] == PagesAndRest(count, (addr + count) % 0x1_0000,
                                              (n - count) / PAGE_SIZE % 0x100, (n - count) % PAGE_SIZE)
  {
    hide PagesAndRest;
  }

  /** After one whole page come the others and the rest. */
  lemma {:induction false} NextPage(offset: nat, addr: nat, pages: nat, single: nat)
    requires addr < 0x1_0000 && pages > 0
    ensures PagesAndRest(offset, addr, pages, single) ==
            [Chunk(offset, addr, PAGE_SIZE)]
            + PagesAndRest(offset + PAGE_SIZE, (addr + PAGE_SIZE) % 0x1_0000, pages - 1, single)
  {
    hide WholePages;
    LaterPage(addr + PAGE_SIZE, PAGE_SIZE * (pages - 1));
    WholePagesFrom(offset, addr, pages);
  }

  lemma {:induction false} WholePagesFrom(offset: nat, addr: nat, pages: nat)
    requires pages > 0
    ensures WholePages(offset, addr, pages)
            == [Chunk(offset, addr, PAGE_SIZE)]
               + WholePages(offset + PAGE_SIZE, (addr + PAGE_SIZE) % 0x1_0000, pages - 1)
  {
  }

  /** Addresses wrap the same way whether they are cut to 16 bits once or twice. */
  lemma {:induction false} LaterPage(addr: nat, more: nat)
    ensures (addr % 0x1_0000 + more) % 0x1_0000 == (addr + more) % 0x1_0000
  {
  }

  lemma {:induction false} AlignedPieces(offset: nat, addr: nat, pages: nat, single: nat)
    requires addr % PAGE_SIZE == 0 && single < PAGE_SIZE && addr + PAGE_SIZE * pages + single <= 0x1_0000
    ensures PagesAndRest(offset, addr % 0x1_0000, pages, single) == Pieces(offset, addr, PAGE_SIZE * pages + single)
    decreases pages
  {
    hide PagesAndRest, Pieces;
    if pages == 0 {
      RestOnly(offset, addr % 0x1_0000, single);
      LastPiece(offset, addr, single);
    } else {
      var n := PAGE_SIZE * pages + single;
      assert addr % 0x1_0000 == addr && (addr + PAGE_SIZE) % PAGE_SIZE == 0;
      NextPage(offset, addr, pages, single);
      AlignedPieces(offset + PAGE_SIZE, addr + PAGE_SIZE, pages - 1, single);
      FirstPiece(offset, addr, n);
    }
  }

  lemma {:induction false} FirstPiece(offset: nat, addr: nat, n: nat)
    requires addr % PAGE_SIZE == 0 && n >= PAGE_SIZE
    ensures Pieces(offset, addr, n)
            == [Chunk(offset, addr, PAGE_SIZE)] + Pieces(offset + PAGE_SIZE, addr + PAGE_SIZE, n - PAGE_SIZE)
  {
  }

  lemma {:induction false} LastPiece(offset: nat, addr: nat, n: nat)
    requires addr % PAGE_SIZE == 0 && n < PAGE_SIZE
    ensures Pieces(offset, addr, n) == if n == 0 then [] else [Chunk(offset, addr, n)]
  {
  }

  /** An unaligned range that goes beyond its first page. */
  lemma {:induction false} SplitPieces(addr: nat, n: nat)
    requires 0 < n && addr + n <= 0x1_0000 && addr % PAGE_SIZE != 0 && n > PAGE_SIZE - addr % PAGE_SIZE
    ensures var count := PAGE_SIZE - addr % PAGE_SIZE;
            var m := n - count;
            && (addr + count) % 0x1_0000 == addr + count
            && Pieces(0, addr, n) ==
               [Chunk(0, addr, count)] + PagesAndRest(count, addr + count, m / PAGE_SIZE, m % PAGE_SIZE)
  {
    var count := PAGE_SIZE - addr % PAGE_SIZE;
    AlignedPieces(count, addr + count, (n - count) / PAGE_SIZE, (n - count) % PAGE_SIZE);
  }

  lemma {:induction false} ByteCounters(n: nat)
    requires n < 0x2000
    ensures n / PAGE_SIZE % 0x100 == n / PAGE_SIZE
    ensures (n < PAGE_SIZE ==> n % 0x100 == n % PAGE_SIZE == n && n / PAGE_SIZE == 0)
  {
  }

  lemma {:induction false} RestOnly(offset: nat, addr: nat, single: nat)
    requires addr < 0x1_0000
    ensures PagesAndRest(offset, addr, 0, single) == if single == 0 then [] else [Chunk(offset, addr, single)]
  {
  }

  lemma {:induction false} AlignedTransfers(addr: nat, n: nat)
    requires 0 < n < 0x2000 && addr + n <= 0x1_0000 && addr % PAGE_SIZE == 0
    ensures Transfers(addr, n) == Pieces(0, addr, n)
  {
    hide PagesAndRest, Pieces;
    ByteCounters(n);
    AlignedPieces(0, addr, n / PAGE_SIZE, n % PAGE_SIZE);
    RestOnly(0, addr, n % PAGE_SIZE);
  }

  lemma {:induction false} UnalignedTransfers(addr: nat, n: nat)
    requires 0 < n < 0x2000 && addr + n <= 0x1_0000 && addr % PAGE_SIZE != 0
    ensures Transfers(addr, n) == Pieces(0, addr, n)
  {
    hide PagesAndRest, Pieces;
    var count := PAGE_SIZE - addr % PAGE_SIZE;
    ByteCounters(n);
    if n > count {
      ByteCounters(n - count);
      SplitPieces(addr, n);
      RestOnly(count, addr + count, n - count);
    } else {
      OnePiece(addr, n);
    }
  }

  lemma {:induction false} OnePiece(addr: nat, n: nat)
    requires 0 < n <= PAGE_SIZE - addr % PAGE_SIZE
    ensures Pieces(0, addr, n) == [Chunk(0, addr, n)]
  {
    assert Pieces(n, addr + n, 0) == [];
  }

  /** The branches and narrow counters of sEE_WriteBuffer cut exactly at the page boundaries. */
  lemma {:induction false} TransfersArePieces(addr: nat, n: nat)
    requires 0 < n < 0x2000 && addr + n <= 0x1_0000
    ensures Transfers(addr, n) == Pieces(0, addr, n)
  {
    hide Transfers, Pieces;
    if addr % PAGE_SIZE == 0 {
      AlignedTransfers(addr, n);
    } else {
      UnalignedTransfers(addr, n);
    }
  }

  /** `cs` are non-empty transfers of consecutive bytes, together the `n` bytes of the buffer from
      `offset` on, to consecutive addresses from `addr` on, and none of them crosses a page boundary. */
  ghost predicate Covers(cs: seq<Chunk>, offset: nat, addr: nat, n: nat)
    decreases |cs|
  {
    if cs == [] then n == 0
    else
      var c := cs[|cs| - 1];
      && 0 < c.len <= n
      && c.offset == offset + n - c.len && c.addr == addr + n - c.len
      && c.addr % PAGE_SIZE + c.len <= PAGE_SIZE
      && Covers(cs[..|cs| - 1], offset, addr, n - c.len)
  }

  lemma {:induction false} CoversCons(c: Chunk, cs: seq<Chunk>, n: nat)
    requires 0 < c.len && c.addr % PAGE_SIZE + c.len <= PAGE_SIZE && Covers(cs, c.offset + c.len, c.addr + c.len, n)
    ensures Covers([c] + cs, c.offset, c.addr, c.len + n)
    decreases |cs|
  {
    if cs == [] {
      assert [c] + cs == [c] && [c][..0] == [];
      assert Covers([], c.offset, c.addr, 0);
    } else {
      var k := |cs| - 1;
      CoversCons(c, cs[..k], n - cs[k].len);
      assert ([c] + cs)[..k + 1] == [c] + cs[..k] && ([c] + cs)[k + 1] == cs[k];
    }
  }

  /** The reference cut is such a cover. */
  lemma {:induction false} PiecesCover(offset: nat, addr: nat, n: nat)
    ensures Covers(Pieces(offset, addr, n), offset, addr, n)
    decreases n
  {
    if n > 0 {
      var len := Min(n, PAGE_SIZE - addr % PAGE_SIZE);
      PiecesCover(offset + len, addr + len, n - len);
      CoversCons(Chunk(offset, addr, len), Pieces(offset + len, addr + len, n - len), n - len);
    }
  }

  function PagesTouched(addr: nat, n: nat): nat
    requires n > 0
  {
    (addr + n - 1) / PAGE_SIZE - addr / PAGE_SIZE + 1
  }

  /** It has one transfer for each page it touches ... */
  lemma {:induction false} PiecesCount(offset: nat, addr: nat, n: nat)
    requires n > 0
    ensures |Pieces(offset, addr, n)| == PagesTouched(addr, n)
    decreases n
  {
    var len := Min(n, PAGE_SIZE - addr % PAGE_SIZE);
    if n > len {
      PiecesCount(offset + len, addr + len, n - len);
      assert (addr + len) % PAGE_SIZE == 0;
    } else {
      assert Pieces(offset + len, addr + len, 0) == [];
    }
  }

  /** ... and no cover has fewer. */
  lemma {:induction false} CoversAtLeast(cs: seq<Chunk>, offset: nat, addr: nat, n: nat)
    requires n > 0 && Covers(cs, offset, addr, n)
    ensures |cs| >= PagesTouched(addr, n)
    decreases |cs|
  {
    var c := cs[|cs| - 1];
    if n > c.len {
      CoversAtLeast(cs[..|cs| - 1], offset, addr, n - c.len);
    }
  }

  function Total(cs: seq<Chunk>): nat {
    if cs == [] then 0 else Total(cs[..|cs| - 1]) + cs[|cs| - 1].len
  }

  lemma {:induction false} CoversTotal(cs: seq<Chunk>, offset: nat, addr: nat, n: nat)
    requires Covers(cs, offset, addr, n)
    ensures Total(cs) == n
    decreases |cs|
  {
    if cs != [] {
      CoversTotal(cs[..|cs| - 1], offset, addr, n - cs[|cs| - 1].len);
    }
  }

  /** The first transfers of a cover are a cover of the first bytes. */
  lemma {:induction false} CoversPrefix(cs: seq<Chunk>, offset: nat, addr: nat, n: nat, k: nat)
    requires Covers(cs, offset, addr, n) && k <= |cs|
    ensures Covers(cs[..k], offset, addr, Total(cs[..k])) && Total(cs[..k]) <= n
    decreases |cs|
  {
    CoversTotal(cs, offset, addr, n);
    if k < |cs| {
      CoversPrefix(cs[..|cs| - 1], offset, addr, n - cs[|cs| - 1].len, k);
      assert cs[..|cs| - 1][..k] == cs[..k];
    } else {
      assert cs[..k] == cs;
    }
  }

  /** The bytes of every transfer lie in the buffer. */
  predicate InBuffer(cs: seq<Chunk>, size: nat) {
    forall i :: 0 <= i < |cs| ==> cs[i].offset + cs[i].len <= size
  }

  /** What the device holds after the transfers.  It ignores address bits beyond its size. */
  function Deliver(mem: seq<Byte>, buf: seq<Byte>, cs: seq<Chunk>): (r: seq<Byte>)
    requires IsDevice(mem) && InBuffer(cs, |buf|)
    ensures |r| == |mem|
    decreases |cs|
  {
    if cs == [] then mem
    else
      var c := cs[|cs| - 1];
      DeviceWrite(Deliver(mem, buf, cs[..|cs| - 1]), c.addr % |mem|, buf[c.offset..c.offset + c.len])
  }

  lemma {:induction false} DeliverNext(mem: seq<Byte>, buf: seq<Byte>, cs: seq<Chunk>, k: nat)
    requires IsDevice(mem) && InBuffer(cs, |buf|) && k < |cs|
    ensures var c := cs[k];
            Deliver(mem, buf, cs[..k + 1])
            == DeviceWrite(Deliver(mem, buf, cs[..k]), c.addr % |mem|, buf[c.offset..c.offset + c.len])
  {
    assert cs[..k + 1][..k] == cs[..k];
  }

  lemma {:induction false} FlatTwice(mem: seq<Byte>, addr: nat, a: seq<Byte>, b: seq<Byte>)
    requires addr + |a| + |b| <= |mem|
    ensures FlatWrite(FlatWrite(mem, addr, a), addr + |a|, b) == FlatWrite(mem, addr, a + b)
  {
    var m := FlatWrite(mem, addr, a);
    assert m[..addr + |a|] == mem[..addr] + a;
    assert m[addr + |a| + |b|..] == mem[addr + |a| + |b|..];
  }

  lemma {:induction false} SmallModulo(x: nat, m: nat)
    requires x < m
    ensures x % m == x
  {
  }

  lemma {:induction false} TwoSlices(buf: seq<Byte>, offset: nat, m: nat, k: nat)
    requires offset + m + k <= |buf|
    ensures buf[offset..offset + (m + k)] == buf[offset..offset + m] + buf[offset + m..offset + m + k]
  {
  }

  lemma {:induction false} DeliverNone(mem: seq<Byte>, buf: seq<Byte>)
    requires IsDevice(mem)
    ensures Deliver(mem, buf, []) == mem
  {
  }

  /** One more transfer inside a page after a flat copy of `m` bytes. */
  lemma {:induction false} FlatAndOne(mem: seq<Byte>, buf: seq<Byte>, offset: nat, addr: nat, m: nat, k: nat)
    requires IsDevice(mem) && addr + m + k <= |mem| && offset + m + k <= |buf|
    requires 0 < k && (addr + m) % PAGE_SIZE + k <= PAGE_SIZE
    ensures DeviceWrite(FlatWrite(mem, addr, buf[offset..offset + m]),
                        (addr + m) % |mem|, buf[offset + m..offset + m + k])
            == FlatWrite(mem, addr, buf[offset..offset + (m + k)])
  {
    hide DeviceWrite, FlatWrite;
    var first, data := buf[offset..offset + m], buf[offset + m..offset + m + k];
    SmallModulo(addr + m, |mem|);
    WithinPageIsFlat(FlatWrite(mem, addr, first), addr + m, data);
    TwoSlices(buf, offset, m, k);
    FlatTwice(mem, addr, first, data);
  }

  /** Delivering a cover of a range is one flat copy, although the device wraps inside its pages. */
  lemma {:induction false} CoverIsFlatCopy(mem: seq<Byte>, buf: seq<Byte>, cs: seq<Chunk>, offset: nat, addr: nat,
                                           n: nat)
    requires IsDevice(mem) && addr + n <= |mem| && offset + n <= |buf|
    requires Covers(cs, offset, addr, n) && InBuffer(cs, |buf|)
    ensures Deliver(mem, buf, cs) == FlatWrite(mem, addr, buf[offset..offset + n])
    decreases |cs|
  {
    hide FlatWrite, DeviceWrite, Deliver;
    if cs == [] {
      DeliverNone(mem, buf);
      FlatNothing(mem, addr);
      assert buf[offset..offset] == [];
    } else {
      var last := |cs| - 1;
      var c := cs[last];
      CoverIsFlatCopy(mem, buf, cs[..last], offset, addr, n - c.len);
      DeliverNext(mem, buf, cs, last);
      assert cs[..last + 1] == cs;
      FlatAndOne(mem, buf, offset, addr, n - c.len, c.len);
    }
  }

  lemma {:induction false} CoverInBuffer(cs: seq<Chunk>, offset: nat, addr: nat, n: nat, size: nat)
    requires Covers(cs, offset, addr, n) && offset + n <= size
    ensures InBuffer(cs, size)
    decreases |cs|
  {
    if cs != [] {
      CoverInBuffer(cs[..|cs| - 1], offset, addr, n - cs[|cs| - 1].len, size);
      assert forall i :: 0 <= i < |cs| - 1 ==> cs[i] == cs[..|cs| - 1][i];
    }
  }

  /** Such writes consist of non-empty transfers of bytes in the buffer. */
  lemma {:induction false} TransfersUsable(addr: nat, n: nat)
    requires 0 < n < 0x2000 && addr + n <= 0x1_0000
    ensures InBuffer(Transfers(addr, n), n)
    ensures forall c :: c in Transfers(addr, n) ==> 0 < c.len
    ensures |Transfers(addr, n)| == PagesTouched(addr, n)
  {
    TransfersArePieces(addr, n);
    PiecesCover(0, addr, n);
    CoverInBuffer(Transfers(addr, n), 0, addr, n, n);
    CoverNonEmpty(Transfers(addr, n), 0, addr, n);
    PiecesCount(0, addr, n);
  }

  lemma {:induction false} CoverNonEmpty(cs: seq<Chunk>, offset: nat, addr: nat, n: nat)
    requires Covers(cs, offset, addr, n)
    ensures forall c :: c in cs ==> 0 < c.len
    decreases |cs|
  {
    if cs != [] {
      CoverNonEmpty(cs[..|cs| - 1], offset, addr, n - cs[|cs| - 1].len);
      assert cs == cs[..|cs| - 1] + [cs[|cs| - 1]];
    }
  }

  /** Writing through the page-wrapping device: whatever prefix of the transfers completes, the device
      has received a flat copy of that many bytes, and all of them if all complete. */
  lemma {:induction false} WriteIsFlatCopy(mem: seq<Byte>, buf: seq<Byte>, addr: nat, n: nat, k: nat)
    requires IsDevice(mem) && 0 < n < 0x2000 && n <= |buf| && addr + n <= |mem| && addr + n <= 0x1_0000
    requires k <= |Transfers(addr, n)|
    ensures var sent := Transfers(addr, n)[..k];
            && InBuffer(sent, |buf|) && Total(sent) <= n
            && Deliver(mem, buf, sent) == FlatWrite(mem, addr, buf[..Total(sent)])
            && (k == |Transfers(addr, n)| ==> Total(sent) == n)
  {
    hide Deliver, FlatWrite;
    var cs := Transfers(addr, n);
    TransfersArePieces(addr, n);
    PiecesCover(0, addr, n);
    CoversPrefix(cs, 0, addr, n, k);
    CoverInBuffer(cs[..k], 0, addr, Total(cs[..k]), |buf|);
    CoverIsFlatCopy(mem, buf, cs[..k], 0, addr, Total(cs[..k]));
    if k == |cs| {
      assert cs[..k] == cs;
      CoversTotal(cs, 0, addr, n);
    }
  }

  lemma {:induction false} TotalConcat(a: seq<Chunk>, b: seq<Chunk>)
    ensures Total(a + b) == Total(a) + Total(b)
    decreases |b|
  {
    if b == [] {
      assert a + b == a;
    } else {
      assert (a + b)[..|a + b| - 1] == a + b[..|b| - 1] && (a + b)[|a + b| - 1] == b[|b| - 1];
      TotalConcat(a, b[..|b| - 1]);
    }
  }

  lemma {:induction false} TotalOne(c: Chunk)
    ensures Total([c]) == c.len
  {
    assert [c][..0] == [];
  }

  lemma {:induction false} TotalPages(offset: nat, addr: nat, pages: nat, single: nat)
    ensures Total(PagesAndRest(offset, addr, pages, single)) == PAGE_SIZE * pages + single
  {
    var rest := if single == 0 then []
                else [Chunk(offset + PAGE_SIZE * pages, (addr + PAGE_SIZE * pages) % 0x1_0000, single)];
    TotalWholePages(offset, addr, pages);
    TotalConcat(WholePages(offset, addr, pages), rest);
    if single != 0 {
      TotalOne(rest[0]);
    }
  }

  lemma {:induction false} TotalWholePages(offset: nat, addr: nat, pages: nat)
    ensures Total(WholePages(offset, addr, pages)) == PAGE_SIZE * pages
    decreases pages
  {
    if pages > 0 {
      var first, next := Chunk(offset, addr, PAGE_SIZE), (addr + PAGE_SIZE) % 0x1_0000;
      TotalWholePages(offset + PAGE_SIZE, next, pages - 1);
      TotalOne(first);
      TotalConcat([first], WholePages(offset + PAGE_SIZE, next, pages - 1));
    }
  }

  /** How many bytes 8-bit page arithmetic makes of `m`. */
  lemma {:induction false} PageBytes(m: nat)
    requires m < 0x1_0000
    ensures PAGE_SIZE * (m / PAGE_SIZE % 0x100) + m % PAGE_SIZE == m <==> m < 0x2000
  {
    var q := m / PAGE_SIZE;
    assert m == PAGE_SIZE * q + m % PAGE_SIZE && q < 0x800;
    assert q % 0x100 == q <==> q < 0x100;
  }

  lemma {:induction false} PairTotal(a: Chunk, b: Chunk)
    ensures Total([a, b]) == a.len + b.len
  {
    assert [a, b] == [a] + [b];
    TotalConcat([a], [b]);
    TotalOne(a);
    TotalOne(b);
  }

  /** The 8-bit page counter: sEE_WriteBuffer sends as many bytes as it was given exactly if there
      are fewer than 8192 of them. */
  lemma {:induction false} SendsAllIffUnder8192(addr: nat, n: nat)
    requires addr < 0x1_0000 && n < 0x1_0000
    ensures Total(Transfers(addr, n)) == n <==> n < 0x2000
  {
    hide PagesAndRest, Total;
    var count := PAGE_SIZE - addr % PAGE_SIZE;
    var pages, single := n / PAGE_SIZE % 0x100, n % PAGE_SIZE;
    PageBytes(n);
    if addr % PAGE_SIZE == 0 {
      TotalOne(Chunk(0, addr, single));
      TotalPages(0, addr, pages, single);
    } else if pages != 0 {
      UnalignedBytes(addr, n);
    } else if n > count {
      PairTotal(Chunk(0, addr, count), Chunk(count, (addr + count) % 0x1_0000, (n - count) % 0x100));
    } else {
      TotalOne(Chunk(0, addr, single));
    }
  }

  lemma {:induction false} UnalignedBytes(addr: nat, n: nat)
    requires n < 0x1_0000 && addr % PAGE_SIZE != 0 && n / PAGE_SIZE % 0x100 != 0
    ensures Total(Transfers(addr, n)) == n <==> n < 0x2000
  {
    hide PagesAndRest, Total;
    var count := PAGE_SIZE - addr % PAGE_SIZE;
    var m, next := n - count, (addr + count) % 0x1_0000;
    assert n >= PAGE_SIZE && (n >= 0x2000 ==> n >= 0x2000 + PAGE_SIZE);
    PageBytes(m);
    TotalOne(Chunk(0, addr, count));
    TotalPages(count, next, m / PAGE_SIZE % 0x100, m % PAGE_SIZE);
    TotalConcat([Chunk(0, addr, count)], PagesAndRest(count, next, m / PAGE_SIZE % 0x100, m % PAGE_SIZE));
  }
}
