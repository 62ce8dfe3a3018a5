/** arm_circularWrite_q15 and arm_circularRead_q15: a ring buffer as a delay line. */
module CircularBuffer {
  import opened Basics

  /** The offset after a step of `inc`: one conditional subtraction. */
  function Advance(offset: int, inc: int, length: int): int {
    if offset + inc >= length then offset + inc - length else offset + inc
  }

  /** The `n` cells found from `offset` on all lie in the ring. */
  predicate OffsetsFit(offset: int, inc: int, length: int, n: nat): (fits: bool)
    ensures 0 <= inc <= length && 0 <= offset < length ==> fits
    decreases n
  {
    n == 0 || (0 <= offset < length && OffsetsFit(Advance(offset, inc, length), inc, length, n - 1))
  }

  /** Exactly the increments from 0 to the length keep every offset in range, in one step and in any
      number of steps: no negative one does. */
  lemma {:induction false} IncrementsInRange(inc: int, length: int)
    requires length > 0
    ensures (forall o :: 0 <= o < length ==> 0 <= Advance(o, inc, length) < length) <==> 0 <= inc <= length
    ensures (forall o, n: nat :: 0 <= o < length ==> OffsetsFit(o, inc, length, n)) <==> 0 <= inc <= length
  {
    if inc < 0 || inc > length {
      var last := if inc < 0 then 0 else length - 1;
      var next := Advance(last, inc, length);
      assert next == if inc < 0 then inc else inc - 1;
      assert !OffsetsFit(next, inc, length, 1);
      assert exists o, n: nat :: 0 <= o < length && !OffsetsFit(o, inc, length, n) by {
        assert !OffsetsFit(last, inc, length, 2);
      }
    }
  }

  /** The ring after the samples are written from `offset` on, `inc` cells apart. */
  function Written(ring: seq<int>, offset: int, inc: int, samples: seq<int>): (r: seq<int>)
    requires OffsetsFit(offset, inc, |ring|, |samples|)
    ensures |r| == |ring|
    decreases |samples|
  {
    if samples == [] then ring
    else Written(ring[offset := samples[0]], Advance(offset, inc, |ring|), inc, samples[1..])
  }

  function OffsetAfter(offset: int, inc: int, length: int, n: nat): (r: int)
    ensures 0 <= inc <= length && 0 <= offset < length ==> 0 <= r < length
    decreases n
  {
    if n == 0 then offset else OffsetAfter(Advance(offset, inc, length), inc, length, n - 1)
  }

  /** The `n` samples found from `offset` on. */
  function ReadFrom(ring: seq<int>, offset: int, inc: int, n: nat): (r: seq<int>)
    requires OffsetsFit(offset, inc, |ring|, n)
    ensures |r| == n
    decreases n
  {
    if n == 0 then [] else [ring[offset]] + ReadFrom(ring, Advance(offset, inc, |ring|), inc, n - 1)
  }

  /** The `n` samples a source stride picks, forwards or backwards, all lie in the source. */
  predicate PicksFit(at: int, stride: int, length: nat, n: nat)
    decreases n
  {
    n == 0 || (0 <= at < length && PicksFit(at + stride, stride, length, n - 1))
  }

  /** These samples, as the source pointer comes to them. */
  function Picked(src: seq<int>, at: int, stride: int, n: nat): (r: seq<int>)
    requires PicksFit(at, stride, |src|, n)
    ensures |r| == n
    decreases n
  {
    if n == 0 then [] else [src[at]] + Picked(src, at + stride, stride, n - 1)
  }

  /** The block a source holds: sample k lies k strides from the start. */
  function Block(src: seq<int>, at: int, stride: int, n: nat): (r: seq<int>)
    ensures |r| == n
  {
    seq(n, k requires 0 <= k < n => if 0 <= at + k * stride < |src| then src[at + k * stride] else 0)
  }

  lemma {:induction false} StrideStep(stride: int, k: nat)
    requires k > 0
    ensures stride + (k - 1) * stride == k * stride
  {
  }

  lemma {:induction false} PickedAt(src: seq<int>, at: int, stride: int, n: nat, k: nat)
    requires PicksFit(at, stride, |src|, n) && k < n
    ensures 0 <= at + k * stride < |src| && Picked(src, at, stride, n)[k] == src[at + k * stride]
    decreases n
  {
    if k > 0 {
      StrideStep(stride, k);
      PickedAt(src, at + stride, stride, n - 1, k - 1);
    }
  }

  lemma {:induction false} PickedIsBlock(src: seq<int>, at: int, stride: int, n: nat)
    requires PicksFit(at, stride, |src|, n)
    ensures Picked(src, at, stride, n) == Block(src, at, stride, n)
  {
    hide Picked, PicksFit;
    forall k | 0 <= k < n
      ensures Picked(src, at, stride, n)[k] == Block(src, at, stride, n)[k]
    {
      PickedAt(src, at, stride, n, k);
    }
  }

  /** With stride 1 that is a slice of the source. */
  lemma {:induction false} BlockIsSlice(src: seq<int>, at: nat, n: nat)
    requires at + n <= |src|
    ensures PicksFit(at, 1, |src|, n) && Block(src, at, 1, n) == src[at..at + n]
    decreases n
  {
    if n > 0 {
      BlockIsSlice(src, at + 1, n - 1);
    }
  }

  /** arm_circularWrite_q15 keeps its offset in a 16-bit unsigned integer between calls. */
  function Stowed(offset: int): (r: int)
    ensures 0 <= r < 0x1_0000
    ensures 0 <= offset < 0x1_0000 ==> r == offset
    ensures exists wraps: int :: offset == r + 0x1_0000 * wraps
  {
    assert offset == offset % 0x1_0000 + 0x1_0000 * (offset / 0x1_0000);
    offset % 0x1_0000
  }

  /** Exactly the rings of at most 65536 cells fit it: in a longer one, the offset is lost after 65535. */
  lemma {:induction false} LengthsThatFit(length: int)
    requires length > 0
    ensures (forall o, n: nat :: 0 <= o < length && o < 0x1_0000 ==>
               Stowed(OffsetAfter(o, 1, length, n)) == OffsetAfter(o, 1, length, n))
            <==> length <= 0x1_0000
  {
    if length > 0x1_0000 {
      assert exists o, n: nat :: 0 <= o < length && o < 0x1_0000 &&
                                 Stowed(OffsetAfter(o, 1, length, n)) != OffsetAfter(o, 1, length, n) by {
        assert Advance(0xFFFF, 1, length) == 0x1_0000;
        assert OffsetAfter(0xFFFF, 1, length, 1) == OffsetAfter(0x1_0000, 1, length, 0) == 0x1_0000;
      }
    }
  }

  /** arm_circularWrite_q15 */
  method CircularWrite(circBuffer: array<int>, length: int, writeOffset: int, bufferInc: int,
                       src: seq<int>, srcStart: int, srcInc: int, blockSize: nat) returns (newOffset: int)
    requires circBuffer.Length == length && OffsetsFit(writeOffset, bufferInc, length, blockSize)
    requires PicksFit(srcStart, srcInc, |src|, blockSize)
    modifies circBuffer
    ensures circBuffer[..]
                  == Written(old(circBuffer[..]), writeOffset, bufferInc, Block(src, srcStart, srcInc, blockSize))
    ensures newOffset == Stowed(OffsetAfter(writeOffset, bufferInc, length, blockSize))
  {
    hide Block;
    PickedIsBlock(src, srcStart, srcInc, blockSize);
    var wOffset, i: nat, s := writeOffset, blockSize, srcStart;
    while i > 0
      invariant OffsetsFit(wOffset, bufferInc, length, i) && PicksFit(s, srcInc, |src|, i)
      invariant Written(old(circBuffer[..]), writeOffset, bufferInc, Picked(src, srcStart, srcInc, blockSize))
             == Written(circBuffer[..], wOffset, bufferInc, Picked(src, s, srcInc, i))
      invariant OffsetAfter(writeOffset, bufferInc, length, blockSize) == OffsetAfter(wOffset, bufferInc, length, i)
    {
      ghost var before, rest := circBuffer[..], Picked(src, s, srcInc, i);
      circBuffer[wOffset] := src[s];
      assert circBuffer[..] == before[wOffset := rest[0]];
      assert rest[1..] == Picked(src, s + srcInc, srcInc, i - 1);
      s := s + srcInc;
      wOffset := wOffset + bufferInc;
      if wOffset >= length {
        wOffset := wOffset - length;
      }
      i := i - 1;
    }
    newOffset := Stowed(wOffset);
  }

  /** Where a destination index goes next: back to the base exactly at the destination's end. */
  function NextTarget(at: int, inc: int, length: nat): int {
    if at + inc == length then 0 else at + inc
  }

  /** The `n` target cells all lie in the destination. */
  predicate TargetsFit(at: int, inc: int, length: nat, n: nat)
    decreases n
  {
    n == 0 || (0 <= at < length && TargetsFit(NextTarget(at, inc, length), inc, length, n - 1))
  }

  /** The destination after the samples are stored from index `at` on. */
  function Stored(dst: seq<int>, at: int, inc: int, samples: seq<int>): (r: seq<int>)
    requires TargetsFit(at, inc, |dst|, |samples|)
    ensures |r| == |dst|
    decreases |samples|
  {
    if samples == [] then dst
    else Stored(dst[at := samples[0]], NextTarget(at, inc, |dst|), inc, samples[1..])
  }

  /** arm_circularRead_q15 */
  method CircularRead(circBuffer: array<int>, length: int, readOffset: int, bufferInc: int,
                      dst: array<int>, dstStart: int, dstInc: int, blockSize: nat) returns (newOffset: int)
    requires circBuffer.Length == length && OffsetsFit(readOffset, bufferInc, length, blockSize)
    requires dst != circBuffer && TargetsFit(dstStart, dstInc, dst.Length, blockSize)
    modifies dst
    ensures dst[..]
                  == Stored(old(dst[..]), dstStart, dstInc, ReadFrom(circBuffer[..], readOffset, bufferInc, blockSize))
    ensures newOffset == OffsetAfter(readOffset, bufferInc, length, blockSize)
  {
    var rOffset, i: nat, d := readOffset, blockSize, dstStart;
    while i > 0
      invariant OffsetsFit(rOffset, bufferInc, length, i) && TargetsFit(d, dstInc, dst.Length, i)
      invariant circBuffer[..] == old(circBuffer[..])
      invariant Stored(old(dst[..]), dstStart, dstInc, ReadFrom(circBuffer[..], readOffset, bufferInc, blockSize))
             == Stored(dst[..], d, dstInc, ReadFrom(circBuffer[..], rOffset, bufferInc, i))
      invariant OffsetAfter(readOffset, bufferInc, length, blockSize) == OffsetAfter(rOffset, bufferInc, length, i)
    {
      ghost var before, rest := dst[..], ReadFrom(circBuffer[..], rOffset, bufferInc, i);
      dst[d] := circBuffer[rOffset];
      assert dst[..] == before[d := rest[0]];
      assert rest[1..] == ReadFrom(circBuffer[..], Advance(rOffset, bufferInc, length), bufferInc, i - 1);
      d := d + dstInc;
      if d == dst.Length {
        d := 0;
      }
      rOffset := rOffset + bufferInc;
      if rOffset >= length {
        rOffset := rOffset - length;
      }
      i := i - 1;
    }
    newOffset := rOffset;
  }

  /** Stored one after the other, a block that fits lands as it is, and the rest stays. */
  lemma {:induction false} StoredInOrder(dst: seq<int>, at: nat, samples: seq<int>)
    requires at + |samples| <= |dst|
    ensures TargetsFit(at, 1, |dst|, |samples|)
    ensures Stored(dst, at, 1, samples) == dst[..at] + samples + dst[at + |samples|..]
    decreases |samples|
  {
    if |samples| == 1 {
      assert samples[1..] == [] && samples == [samples[0]];
      assert TargetsFit(NextTarget(at, 1, |dst|), 1, |dst|, 0);
    } else if |samples| > 1 {
      StoredInOrder(dst[at := samples[0]], at + 1, samples[1..]);
      assert samples == [samples[0]] + samples[1..];
    }
  }

  /** The ring holds the last samples of the stream, sample k in cell k mod length, and the write
      offset is where the next one goes. */
  ghost predicate Holds(ring: seq<int>, offset: int, stream: seq<int>) {
    && |ring| > 0 && offset == |stream| % |ring|
    && forall k :: 0 <= k < |stream| && |stream| - |ring| <= k ==> ring[k % |ring|] == stream[k]
  }

  lemma {:induction false} HoldsAt(ring: seq<int>, offset: int, stream: seq<int>)
    requires Holds(ring, offset, stream)
    ensures |ring| > 0 && offset == |stream| % |ring|
  {
  }

  lemma {:induction false} NextCell(k: nat, length: int)
    requires length > 0
    ensures Advance(k % length, 1, length) == (k + 1) % length
  {
    var q, r := k / length, k % length;
    assert k == length * q + r;
    if r + 1 < length {
      DivisionUnique(k + 1, q, r + 1, length);
    } else {
      assert length * (q + 1) == length * q + length;
      DivisionUnique(k + 1, q + 1, 0, length);
    }
  }

  /** Fewer than `length` samples apart, two samples are in different cells. */
  lemma {:induction false} DifferentCells(j: int, k: int, length: int)
    requires 0 < length && j < k < j + length
    ensures j % length != k % length
  {
    var q, p := j / length, k / length;
    assert j == length * q + j % length && k == length * p + k % length;
    assert length * (p - q) == length * p - length * q;
    TimesMonotone(length, 1, p - q);
    TimesMonotone(length, p - q, 0);
  }

  /** Writing one sample. */
  lemma {:induction false} WriteOne(ring: seq<int>, stream: seq<int>, x: int)
    requires |ring| > 0 && Holds(ring, |stream| % |ring|, stream)
    ensures Holds(ring[|stream| % |ring| := x], Advance(|stream| % |ring|, 1, |ring|), stream + [x])
  {
    var n, len := |stream|, |ring|;
    NextCell(n, len);
    forall k | 0 <= k < n && n + 1 - len <= k
      ensures k % len != n % len
    {
      DifferentCells(k, n, len);
    }
  }

  /** A block write appends its samples to the delay line. */
  lemma {:induction false} WriteExtendsStream(ring: seq<int>, offset: int, stream: seq<int>, samples: seq<int>)
    requires |ring| > 0 && 0 <= offset < |ring| && Holds(ring, offset, stream)
    ensures Holds(Written(ring, offset, 1, samples), OffsetAfter(offset, 1, |ring|, |samples|), stream + samples)
    decreases |samples|
  {
    if samples == [] {
      assert stream + samples == stream;
    } else {
      WriteOne(ring, stream, samples[0]);
      WriteExtendsStream(ring[offset := samples[0]], Advance(offset, 1, |ring|), stream + [samples[0]], samples[1..]);
      assert stream + samples == stream + [samples[0]] + samples[1..];
    }
  }

  /** Reading a block that starts `delay` samples back gives exactly those samples. */
  lemma {:induction false} ReadGivesDelayed(ring: seq<int>, stream: seq<int>, start: nat, n: nat)
    requires |ring| > 0 && Holds(ring, |stream| % |ring|, stream)
    requires start + n <= |stream| && |stream| - |ring| <= start
    ensures ReadFrom(ring, start % |ring|, 1, n) == stream[start..start + n]
    ensures OffsetAfter(start % |ring|, 1, |ring|, n) == (start + n) % |ring|
    decreases n
  {
    if n > 0 {
      NextCell(start, |ring|);
      ReadGivesDelayed(ring, stream, start + 1, n - 1);
      assert stream[start..start + n] == [stream[start]] + stream[start + 1..start + n];
    }
  }

  /** The read offset for a delay, computed from the write offset. */
  lemma {:induction false} DelayedOffset(written: nat, delay: nat, length: int)
    requires length > 0 && delay <= length && delay <= written
    ensures (written - delay) % length == (written % length + length - delay) % length
  {
    var q, r := (written - delay) / length, (written - delay) % length;
    var w := written / length;
    assert written == length * w + written % length && written - delay == length * q + r;
    assert length * (q - w + 1) == length * q - length * w + length;
    DivisionUnique(written % length + length - delay, q - w + 1, r, length);
  }

  /** What arm_circularWrite_q15 is given in one call. */
  datatype Call = Call(src: seq<int>, at: int, stride: int, n: nat) {
    predicate Fits() {
      PicksFit(at, stride, |src|, n)
    }

    function Samples(): (r: seq<int>)
      ensures |r| == n
    {
      Block(src, at, stride, n)
    }
  }

  /** All samples, in order. */
  function Samples(calls: seq<Call>): seq<int> {
    if calls == [] then [] else calls[0].Samples() + Samples(calls[1..])
  }

  /** The ring and the write offset after a sequence of block writes. */
  function WriteBlocks(ring: seq<int>, offset: int, calls: seq<Call>): (r: (seq<int>, int))
    requires 0 <= offset < |ring| <= 0x1_0000
    ensures |r.0| == |ring|
    decreases |calls|
  {
    if calls == [] then (ring, offset)
    else
      var next := Stowed(OffsetAfter(offset, 1, |ring|, calls[0].n));
      WriteBlocks(Written(ring, offset, 1, calls[0].Samples()), next, calls[1..])
  }

  /** The calls one after the other, on the ring itself. */
  method WriteAll(circBuffer: array<int>, writeOffset: int, calls: seq<Call>) returns (newOffset: int)
    requires 0 <= writeOffset < circBuffer.Length <= 0x1_0000 && forall c :: c in calls ==> c.Fits()
    modifies circBuffer
    ensures (circBuffer[..], newOffset) == WriteBlocks(old(circBuffer[..]), writeOffset, calls)
  {
    newOffset := writeOffset;
    for i := 0 to |calls|
      invariant 0 <= newOffset < circBuffer.Length
      invariant WriteBlocks(old(circBuffer[..]), writeOffset, calls)
             == WriteBlocks(circBuffer[..], newOffset, calls[i..])
    {
      var c := calls[i];
      assert c in calls && calls[i..][0] == c && calls[i..][1..] == calls[i + 1..];
      newOffset := CircularWrite(circBuffer, circBuffer.Length, newOffset, 1, c.src, c.at, c.stride, c.n);
    }
  }

  lemma {:induction false} BlocksExtendStream(ring: seq<int>, offset: int, stream: seq<int>, calls: seq<Call>)
    requires 0 <= offset < |ring| <= 0x1_0000 && Holds(ring, offset, stream)
    ensures var (after, next) := WriteBlocks(ring, offset, calls); Holds(after, next, stream + Samples(calls))
    decreases |calls|
  {
    hide Holds;
    if calls == [] {
      assert stream + Samples(calls) == stream;
    } else {
      var first := calls[0].Samples();
      WriteExtendsStream(ring, offset, stream, first);
      BlocksExtendStream(Written(ring, offset, 1, first), OffsetAfter(offset, 1, |ring|, |first|),
                         stream + first, calls[1..]);
      assert stream + Samples(calls) == stream + first + Samples(calls[1..]);
    }
  }

  /** The delay line.  After any sequence of block writes, a block read that starts `delay` samples
      behind the write offset puts exactly the delayed samples into the destination, leaves the rest
      of it alone, and is ready for the samples after them. */
  lemma {:induction false} DelayLine(ring: seq<int>, offset: int, stream: seq<int>, calls: seq<Call>,
                                     delay: nat, n: nat, dst: seq<int>, at: nat)
    requires 0 <= offset < |ring| <= 0x1_0000 && Holds(ring, offset, stream)
    requires n <= delay <= |ring| && delay <= |stream + Samples(calls)| && at + n <= |dst|
    ensures var (after, next) := WriteBlocks(ring, offset, calls);
            var all, from := stream + Samples(calls), (next + |ring| - delay) % |ring|;
            var start := |all| - delay;
            && TargetsFit(at, 1, |dst|, n)
            && Stored(dst, at, 1, ReadFrom(after, from, 1, n)) == dst[..at] + all[start..start + n] + dst[at + n..]
            && OffsetAfter(from, 1, |ring|, n) == (start + n) % |ring|
  {
    hide Holds, Written, ReadFrom, Stored, TargetsFit, OffsetsFit, OffsetAfter, WriteBlocks, Samples;
    BlocksExtendStream(ring, offset, stream, calls);
    var (after, next) := WriteBlocks(ring, offset, calls);
    HoldsAt(after, next, stream + Samples(calls));
    var all := stream + Samples(calls);
    var start := |all| - delay;
    DelayedOffset(|all|, delay, |ring|);
    ReadGivesDelayed(after, all, start, n);
    StoredInOrder(dst, at, all[start..start + n]);
  }

  lemma {:induction false} ModuloTwice(a: int, b: int, m: int)
    requires m > 0
    ensures (a % m + b) % m == (a + b) % m
  {
    var r := a % m + b;
    assert a == m * (a / m) + a % m && r == m * (r / m) + r % m;
    assert m * (a / m + r / m) == m * (a / m) + m * (r / m);
    DivisionUnique(a + b, a / m + r / m, r % m, m);
  }

  /** With any increment in range, step n comes to the cell n increments on, modulo the length. */
  lemma {:induction false} OffsetAfterIs(offset: int, inc: int, length: int, n: nat)
    requires 0 <= inc <= length && 0 <= offset < length
    ensures OffsetAfter(offset, inc, length, n) == (offset + n * inc) % length
    decreases n
  {
    if n > 0 {
      var next := Advance(offset, inc, length);
      assert next == (offset + inc) % length by {
        DivisionUnique(offset + inc, if offset + inc >= length then 1 else 0, next, length);
      }
      OffsetAfterIs(next, inc, length, n - 1);
      ModuloTwice(offset + inc, (n - 1) * inc, length);
      assert offset + inc + (n - 1) * inc == offset + n * inc;
    } else {
      DivisionUnique(offset, 0, offset, length);
    }
  }

  /** Sample k of a block read is what that cell holds. */
  lemma {:induction false} ReadAt(ring: seq<int>, offset: int, inc: int, n: nat, k: nat)
    requires OffsetsFit(offset, inc, |ring|, n) && k < n
    ensures 0 <= OffsetAfter(offset, inc, |ring|, k) < |ring|
    ensures ReadFrom(ring, offset, inc, n)[k] == ring[OffsetAfter(offset, inc, |ring|, k)]
    decreases n
  {
    if k > 0 {
      ReadAt(ring, Advance(offset, inc, |ring|), inc, n - 1, k - 1);
    }
  }

  /** One more sample in a block write goes into that cell and leaves the others alone. */
  lemma {:induction false} WrittenLast(ring: seq<int>, offset: int, inc: int, samples: seq<int>, x: int)
    requires OffsetsFit(offset, inc, |ring|, |samples| + 1)
    ensures var cell := OffsetAfter(offset, inc, |ring|, |samples|);
            && OffsetsFit(offset, inc, |ring|, |samples|) && 0 <= cell < |ring|
            && Written(ring, offset, inc, samples + [x]) == Written(ring, offset, inc, samples)[cell := x]
    decreases |samples|
  {
    if samples == [] {
      assert samples + [x] == [x] && [x][1..] == [];
    } else {
      assert (samples + [x])[1..] == samples[1..] + [x];
      WrittenLast(ring[offset := samples[0]], Advance(offset, inc, |ring|), inc, samples[1..], x);
    }
  }

  /** The destination index after `n` samples. */
  function TargetAfter(at: int, inc: int, length: nat, n: nat): int
    decreases n
  {
    if n == 0 then at else TargetAfter(NextTarget(at, inc, length), inc, length, n - 1)
  }

  /** With stride 1 the destination is a ring of its own. */
  lemma {:induction false} TargetAfterIs(at: int, length: nat, n: nat)
    requires 0 <= at < length
    ensures TargetAfter(at, 1, length, n) == (at + n) % length
    decreases n
  {
    if n > 0 {
      var next := NextTarget(at, 1, length);
      TargetAfterIs(next, length, n - 1);
      if next == 0 {
        ModuloTwice(length, n - 1, length);
        DivisionUnique(length, 1, 0, length);
      }
    } else {
      DivisionUnique(at, 0, at, length);
    }
  }

  /** A destination that holds a whole number of strides can be filled again and again. */
  lemma {:induction false} FillsAgain(turns: nat, step: nat, inc: nat, n: nat)
    requires inc > 0 && step < turns
    ensures TargetsFit(step * inc, inc, turns * inc, n)
    ensures TargetAfter(step * inc, inc, turns * inc, n) == (step + n) % turns * inc
    decreases n
  {
    TimesMonotone(inc, step + 1, turns);
    TimesMonotone(inc, 0, step);
    if n > 0 {
      assert step * inc + inc == (step + 1) * inc;
      if step + 1 < turns {
        TimesMonotone(inc, step + 2, turns);
        assert (step + 2) * inc == (step + 1) * inc + inc;
        FillsAgain(turns, step + 1, inc, n - 1);
      } else {
        FillsAgain(turns, 0, inc, n - 1);
        ModuloTwice(turns, n - 1, turns);
        DivisionUnique(turns, 1, 0, turns);
      }
    } else {
      DivisionUnique(step, 0, step, turns);
    }
  }

  lemma {:induction false} StoredLast(dst: seq<int>, at: int, inc: int, samples: seq<int>, x: int)
    requires TargetsFit(at, inc, |dst|, |samples| + 1)
    ensures var cell := TargetAfter(at, inc, |dst|, |samples|);
            && TargetsFit(at, inc, |dst|, |samples|) && 0 <= cell < |dst|
            && Stored(dst, at, inc, samples + [x]) == Stored(dst, at, inc, samples)[cell := x]
    decreases |samples|
  {
    if samples == [] {
      assert samples + [x] == [x] && [x][1..] == [];
    } else {
      assert (samples + [x])[1..] == samples[1..] + [x];
      StoredLast(dst[at := samples[0]], NextTarget(at, inc, |dst|), inc, samples[1..], x);
    }
  }
}
