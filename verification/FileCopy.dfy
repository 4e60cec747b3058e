/** Copying a regular file: in-kernel or through a buffer, skipping holes, surviving
    interruptions and short transfers, and writing back in bounded steps. */
module FileCopy {
  import opened OperationContext

  // What the kernel answers is arbitrary within the contract each call states.

  type Byte = n: int | 0 <= n < 0x100

  const ZERO: Byte := 0
  const EIO: int := 5
  const ESTALE: int := 116

  // How much one in-kernel transfer asks for, and the size of the buffer.
  const KERNEL_BLOCK: nat := 4 * 1024 * 1024
  const BUFFER_SIZE: nat := 1024 * 1024

  // ----- Writeback -----

  const WRITEBACK_CHUNK: nat := 8 * 1024 * 1024
  const WRITEBACK_LIMIT: nat := 32 * 1024 * 1024
  const WRITEBACK_FILES: nat := 256

  // A stretch of a file, of which `bytes` were written.
  datatype Range = Range(offset: nat, length: nat, bytes: nat)

  function BytesOf(ranges: seq<Range>): nat {
    if ranges == [] then 0 else ranges[0].bytes + BytesOf(ranges[1..])
  }

  lemma {:induction false} BytesAppend(ranges: seq<Range>, r: Range)
    ensures BytesOf(ranges + [r]) == BytesOf(ranges) + r.bytes
    decreases |ranges|
  {
    if ranges != [] {
      assert (ranges + [r])[1..] == ranges[1..] + [r];
      BytesAppend(ranges[1..], r);
    }
  }

  class Writeback {
    var ranges: seq<Range>
    var pending: int
    // The ranges waited for, and all ranges whose writeback was started.
    ghost var waited: seq<Range>
    ghost var started: seq<Range>

    constructor ()
      ensures Valid() && started == []
    {
      ranges, pending, waited, started := [], 0, [], [];
    }

    // The queue holds what was started and not waited for, in order, within both limits.
    ghost predicate Valid()
      reads this
    {
      && pending == BytesOf(ranges) <= WRITEBACK_LIMIT
      && |ranges| <= WRITEBACK_FILES
      && waited + ranges == started
    }

    // Starts writing a range back unless the kernel gives out no more descriptors, and waits for
    // the oldest ranges, no more of them than the limits ask for.
    method Push(offset: nat, length: nat, bytes: nat, duplicated: bool)
      requires Valid()
      modifies this
      ensures Valid() && pending == BytesOf(ranges) <= WRITEBACK_LIMIT && |ranges| <= WRITEBACK_FILES
      ensures started == if duplicated then old(started) + [Range(offset, length, bytes)] else old(started)
      ensures old(waited) <= waited
      ensures waited != old(waited) ==>
                var last := waited[|waited| - 1];
                last.bytes + pending > WRITEBACK_LIMIT || 1 + |ranges| > WRITEBACK_FILES
    {
      if !duplicated {
        return;
      }
      var r := Range(offset, length, bytes);
      BytesAppend(ranges, r);
      ranges := ranges + [r];
      started := started + [r];
      pending := pending + bytes;
      while pending > WRITEBACK_LIMIT || |ranges| > WRITEBACK_FILES
        invariant pending == BytesOf(ranges) && waited + ranges == started
        invariant started == old(started) + [r] && old(waited) <= waited
        invariant waited != old(waited) ==>
                    var last := waited[|waited| - 1];
                    last.bytes + pending > WRITEBACK_LIMIT || 1 + |ranges| > WRITEBACK_FILES
        decreases |ranges|
      {
        var oldest := ranges[0];
        waited := waited + [oldest];
        ranges := ranges[1..];
        pending := pending - oldest.bytes;
      }
    }
  }

  // ----- The source and what is written -----

  ghost predicate ZeroBetween(source: seq<Byte>, from: int, to: int) {
    forall k :: from <= k < to && 0 <= k < |source| ==> source[k] == ZERO
  }

  // A file as read: past its end there is nothing but zeros.
  function ByteAt(file: seq<Byte>, k: nat): Byte {
    if k < |file| then file[k] else ZERO
  }

  // Writing past the end fills the gap with zeros.
  function WriteAt(file: seq<Byte>, at: nat, data: seq<Byte>): (r: seq<Byte>)
    ensures |r| == if at + |data| > |file| then at + |data| else |file|
    ensures forall k :: 0 <= k < |r| ==> r[k] == if at <= k < at + |data| then data[k - at] else ByteAt(file, k)
  {
    var size := if at + |data| > |file| then at + |data| else |file|;
    seq(size, k requires 0 <= k < size => if at <= k < at + |data| then data[k - at] else ByteAt(file, k))
  }

  function Truncated(file: seq<Byte>, size: nat): (r: seq<Byte>)
    ensures |r| == size && forall k :: 0 <= k < size ==> r[k] == ByteAt(file, k)
  {
    seq(size, k requires 0 <= k < size => ByteAt(file, k))
  }

  // ----- Kernel answers -----

  datatype Seek = At(offset: nat) | NoMoreData | NotSupported | SeekFailed(errno: int)

  ghost predicate DataAnswer(source: seq<Byte>, position: nat, a: Seek) {
    match a
    case At(offset) => position <= offset < |source| && ZeroBetween(source, position, offset)
    case NoMoreData => ZeroBetween(source, position, |source|)
    case _ => true
  }

  // Where data starts at or after a position: everything before it is a hole, read as zeros.
  method SeekData(source: seq<Byte>, position: nat, faultless: bool) returns (a: Seek)
    requires position < |source|
    ensures DataAnswer(source, position, a)
    ensures faultless ==> !a.SeekFailed?
  {
    a := *;
    match a {
      case At(offset) =>
        if !(position <= offset < |source| && forall k :: position <= k < offset ==> source[k] == ZERO) {
          a := NotSupported;
        }
      case NoMoreData =>
        if !forall k :: position <= k < |source| ==> source[k] == ZERO {
          a := NotSupported;
        }
      case SeekFailed(_) =>
        if faultless {
          a := NotSupported;
        }
      case NotSupported =>
    }
  }

  // Where the data at a position ends.
  method SeekHole(position: nat, faultless: bool) returns (a: Seek)
    ensures a.At? ==> a.offset > position
    ensures a.At? || (a.SeekFailed? && !faultless)
  {
    a := *;
    if (a.At? && a.offset <= position) || !a.At? {
      a := if faultless then At(position + 1) else SeekFailed(EIO);
    }
  }

  datatype Transfer = Moved(count: nat) | Interrupted | Refused(errno: int)

  // Any transfer of at most `length` bytes; an interruption uses up one of those left.
  method SomeTransfer(length: nat, interruptions: nat, faultless: bool) returns (t: Transfer)
    requires length > 0
    ensures t.Moved? ==> t.count <= length
    ensures t.Interrupted? ==> interruptions > 0
    ensures faultless ==> !t.Refused? && (t.Moved? ==> t.count > 0)
  {
    t := *;
    if (t.Moved? && t.count > length) || (t.Interrupted? && interruptions == 0)
       || (faultless && (t.Refused? || (t.Moved? && t.count < 1))) {
      t := if faultless then Moved(1) else Refused(EIO);
    }
  }

  // Whether the user cancelled the operation by now.
  method Cancelled(faultless: bool) returns (cancelled: bool)
    ensures faultless ==> !cancelled
  {
    cancelled := *;
    cancelled := cancelled && !faultless;
  }

  // ----- The copy -----

  datatype Stretch = Stretch(from: nat, to: nat)

  ghost predicate EndBy(written: seq<Stretch>, end: nat) {
    forall k :: 0 <= k < |written| ==> written[k].to <= end
  }

  class RegularFileCopy {
    const source: seq<Byte>
    const writeback: Writeback
    // Reads, writes and seeks do not fail and nobody cancels; transfers stay short, interrupted
    // and, in the kernel, refused at will.
    const faultless: bool
    var output: seq<Byte>
    var position: nat
    var sparse: bool
    var inKernel: bool
    var flushed: nat
    var unflushed: nat
    // Progress reported so far.
    var advanced: nat
    // How often the kernel may still interrupt a transfer.
    var interruptions: nat
    // What the copy handed to the writeback, and the stretches it wrote itself.
    ghost var pushed: seq<Range>
    ghost var written: seq<Stretch>

    constructor (source: seq<Byte>, writeback: Writeback, interruptions: nat, faultless: bool)
      ensures this.source == source && this.writeback == writeback && this.faultless == faultless
      ensures Valid() && position == 0
    {
      this.source, this.writeback, this.interruptions, this.faultless := source, writeback, interruptions, faultless;
      output, position, sparse, inKernel := [], 0, true, true;
      flushed, unflushed, advanced, pushed, written := 0, 0, 0, [], [];
    }

    // The output agrees with the source up to the position.
    ghost predicate Copied(position: nat)
      reads this
    {
      && |output| <= |source| && position <= |source|
      && forall k :: 0 <= k < position ==> ByteAt(output, k) == source[k]
    }

    // Less than a chunk waits; the ranges handed over lie one after the other from the file's start, and every byte
    // written is in one of them or waits to be.
    ghost predicate WritesCovered(position: nat)
      reads this
    {
      && Consecutive(pushed, flushed)
      && flushed <= position
      && EndBy(written, position)
      && (unflushed == 0 ==> EndBy(written, flushed))
      && unflushed <= position - flushed && unflushed < WRITEBACK_CHUNK
    }

    ghost predicate Valid()
      reads this
    {
      Copied(position) && WritesCovered(position) && advanced == position && |output| <= position
    }

    // Counts bytes just written, and hands a chunk over once there are enough.
    method Wrote(bytes: nat)
      requires Copied(position) && advanced == position && |output| <= position && writeback.Valid()
      requires Consecutive(pushed, flushed) && flushed + unflushed + bytes <= position && bytes > 0
      requires EndBy(written, position)
      modifies `unflushed, `flushed, `pushed, writeback
      ensures Valid() && writeback.Valid()
      ensures old(pushed) <= pushed
    {
      unflushed := unflushed + bytes;
      if unflushed < WRITEBACK_CHUNK {
        return;
      }
      var duplicated: bool := *;
      writeback.Push(flushed, position - flushed, unflushed, duplicated);
      ConsecutiveAppend(pushed, flushed, Range(flushed, position - flushed, unflushed));
      pushed := pushed + [Range(flushed, position - flushed, unflushed)];
      flushed := position;
      unflushed := 0;
    }

    // Passes over a hole: nothing is written, the bytes there are zeros.
    method SkipTo(to: nat)
      requires Valid() && position <= to <= |source|
      requires ZeroBetween(source, position, to)
      modifies `position, `advanced
      ensures Valid() && position == to
    {
      advanced := advanced + (to - position);
      position := to;
    }

    // Writes part of what a transfer read to where it belongs.
    method Put(at: nat, count: nat)
      requires at + count <= |source| && |output| <= at && advanced == at && count > 0
      requires Copied(at)
      requires Consecutive(pushed, flushed) && EndBy(written, at)
      modifies `output, `advanced, `written
      ensures Copied(at + count) && |output| == at + count == advanced
      ensures EndBy(written, at + count)
    {
      output := WriteAt(output, at, source[at..at + count]);
      advanced := advanced + count;
      written := written + [Stretch(at, at + count)];
    }

    // Asks the kernel for one transfer. Once it moves nothing, the buffer is used from then on.
    method KernelStep(extentEnd: nat) returns (again: bool)
      requires Valid() && writeback.Valid()
      requires position < extentEnd <= |source| && inKernel
      modifies this, writeback
      ensures Valid() && writeback.Valid() && sparse == old(sparse)
      ensures again ==> position > old(position) || (position == old(position) && interruptions < old(interruptions))
      ensures position <= extentEnd && interruptions <= old(interruptions)
      ensures !again ==> position == old(position) && !inKernel
    {
      var length := if extentEnd - position < KERNEL_BLOCK then extentEnd - position else KERNEL_BLOCK;
      var copied := SomeTransfer(length, interruptions, false);
      if copied.Interrupted? {
        interruptions := interruptions - 1;
        return true;
      }
      if copied.Moved? && copied.count > 0 {
        Put(position, copied.count);
        position := position + copied.count;
        Wrote(copied.count);
        return true;
      }
      inKernel := false;
      return false;
    }

    // One transfer through the buffer, written out in as many pieces as it takes.
    method BufferedStep(extentEnd: nat) returns (o: Outcome)
      requires Valid() && writeback.Valid()
      requires position < extentEnd <= |source|
      modifies this, writeback
      ensures writeback.Valid() && sparse == old(sparse) && inKernel == old(inKernel)
      ensures interruptions <= old(interruptions)
      ensures o.Done? ==> Valid() && position <= extentEnd
      ensures faultless ==> o.Done?
      ensures o.Done? ==> position > old(position) || (position == old(position) && interruptions < old(interruptions))
    {
      var length := if extentEnd - position < BUFFER_SIZE then extentEnd - position else BUFFER_SIZE;
      var read := SomeTransfer(length, interruptions, faultless);
      if read.Interrupted? {
        interruptions := interruptions - 1;
        return Done;
      }
      if read.Refused? {
        return Failed(read.errno);
      }
      if read.count == 0 {
        return Failed(ESTALE);
      }
      var offset := 0;
      while offset < read.count
        modifies `output, `advanced, `written, `interruptions
        invariant offset <= read.count
        invariant Copied(position + offset) && |output| <= position + offset == advanced
        invariant EndBy(written, position + offset)
        invariant interruptions <= old(interruptions)
        decreases read.count - offset, interruptions
      {
        var cancelled := Cancelled(faultless);
        if cancelled {
          return Failed(ECANCELED);
        }
        var wrote := SomeTransfer(read.count - offset, interruptions, faultless);
        if wrote.Interrupted? {
          interruptions := interruptions - 1;
          continue;
        }
        if wrote.Refused? {
          return Failed(wrote.errno);
        }
        if wrote.count == 0 {
          return Failed(EIO);
        }
        Put(position + offset, wrote.count);
        offset := offset + wrote.count;
      }
      position := position + read.count;
      Wrote(read.count);
      return Done;
    }

    // Copies up to the end of an extent.
    method CopyExtent(extentEnd: nat) returns (o: Outcome)
      requires Valid() && writeback.Valid()
      requires position <= extentEnd <= |source|
      modifies this, writeback
      ensures writeback.Valid() && sparse == old(sparse)
      ensures o.Done? ==> Valid() && position == extentEnd
      ensures faultless ==> o.Done?
    {
      hide Copied, WritesCovered;
      while position < extentEnd
        invariant Valid() && writeback.Valid() && position <= extentEnd && sparse == old(sparse)
        decreases extentEnd - position, interruptions
      {
        var cancelled := Cancelled(faultless);
        if cancelled {
          return Failed(ECANCELED);
        }
        if inKernel {
          var again := KernelStep(extentEnd);
          if again {
            continue;
          }
        }
        o := BufferedStep(extentEnd);
        if o.Failed? {
          return;
        }
      }
      return Done;
    }

    // Where the copy goes on: past a hole, and how far the data there reaches.
    method NextExtent() returns (o: Outcome, extentEnd: nat)
      requires Valid() && position < |source|
      modifies `position, `advanced, `sparse
      ensures o.Done? ==> Valid() && old(position) <= position <= extentEnd <= |source|
      ensures o.Done? ==> position == extentEnd == |source| || position < extentEnd
      ensures faultless ==> o.Done?
    {
      extentEnd := |source|;
      if sparse {
        var data := SeekData(source, position, faultless);
        match data {
          case NoMoreData =>
            SkipTo(|source|);
            return Done, |source|;
          case NotSupported =>
            sparse := false;
          case SeekFailed(errno) =>
            return Failed(errno), 0;
          case At(offset) =>
            SkipTo(offset);
            var hole := SeekHole(position, faultless);
            if hole.SeekFailed? {
              return Failed(hole.errno), 0;
            }
            extentEnd := if hole.offset < |source| then hole.offset else |source|;
        }
      }
      return Done, extentEnd;
    }

    /** A copy that ends well has the source's bytes, has reported exactly their number, and
        has handed every byte it wrote to the writeback, in ranges without gaps. Only a failed
        call or a cancellation keeps it from ending well. */
    method Copy() returns (o: Outcome)
      requires Valid() && writeback.Valid() && position == 0 && output == [] && pushed == [] && written == []
      modifies this, writeback
      ensures writeback.Valid()
      ensures o.Done? ==> output == source && advanced == |source|
      ensures faultless ==> o.Done?
      ensures o.Done? ==> Consecutive(pushed, flushed) && flushed <= |source| && EndBy(written, flushed)
    {
      var cloned: bool := *;
      if |source| > 0 && cloned {
        output, advanced, position := source, |source|, |source|;
      }
      while position < |source|
        invariant Valid() && writeback.Valid()
        decreases |source| - position
      {
        var cancelled := Cancelled(faultless);
        if cancelled {
          return Failed(ECANCELED);
        }
        var extentEnd;
        o, extentEnd := NextExtent();
        if o.Failed? {
          return;
        }
        o := CopyExtent(extentEnd);
        if o.Failed? {
          return;
        }
      }
      if unflushed != 0 {
        var duplicated: bool := *;
        writeback.Push(flushed, position - flushed, unflushed, duplicated);
        ConsecutiveAppend(pushed, flushed, Range(flushed, position - flushed, unflushed));
        pushed := pushed + [Range(flushed, position - flushed, unflushed)];
        flushed := position;
      }
      output := Truncated(output, |source|);
      return Done;
    }
  }

  // Ranges one after the other from 0 to `end`.
  ghost predicate Consecutive(ranges: seq<Range>, end: nat)
    decreases |ranges|
  {
    if ranges == [] then end == 0
    else
      var last := ranges[|ranges| - 1];
      last.offset + last.length == end && Consecutive(ranges[..|ranges| - 1], last.offset)
  }

  /** Such ranges leave no gap: every place before their end is in one of them. */
  lemma {:induction false} ConsecutiveCovers(ranges: seq<Range>, end: nat, k: int)
    requires Consecutive(ranges, end) && 0 <= k < end
    ensures exists i :: 0 <= i < |ranges| && ranges[i].offset <= k < ranges[i].offset + ranges[i].length
    decreases |ranges|
  {
    var last := |ranges| - 1;
    if k >= ranges[last].offset {
      assert ranges[last].offset <= k < ranges[last].offset + ranges[last].length;
    } else {
      ConsecutiveCovers(ranges[..last], ranges[last].offset, k);
      var i :| 0 <= i < last && ranges[..last][i].offset <= k < ranges[..last][i].offset + ranges[..last][i].length;
      assert ranges[i].offset <= k < ranges[i].offset + ranges[i].length;
    }
  }

  lemma ConsecutiveAppend(ranges: seq<Range>, end: nat, r: Range)
    requires Consecutive(ranges, end) && r.offset == end
    ensures Consecutive(ranges + [r], end + r.length)
  {
    assert (ranges + [r])[..|ranges|] == ranges;
  }
}
