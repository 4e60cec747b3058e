/** Work on the items of a listing, split into blocks that threads take from one counter. */
module BlockSharing {
  import opened HelperPool

  // Where a run of the body is: about to take a block, inside one, past the loop, and for a
  // helper counted as finished.
  datatype Run = Ready | Filling(at: nat, end: nat) | Returned | Counted

  const Running: Run -> bool := (r: Run) => r.Ready? || r.Filling?
  const Uncounted: Run -> bool := (r: Run) => !r.Counted?
  const Unwritten: nat -> bool := (n: nat) => n == 0

  // ----- Blocks -----

  function Blocks(count: nat, size: nat): nat
    requires size > 0
  {
    (count + size - 1) / size
  }

  function BlockStart(block: nat, count: nat, size: nat): (start: nat)
    ensures start <= count
  {
    if block * size < count then block * size else count
  }

  lemma NextBlock(block: nat, count: nat, size: nat)
    requires size > 0
    ensures BlockStart(block, count, size) <= BlockStart(block + 1, count, size)
    ensures block < Blocks(count, size) ==> BlockStart(block, count, size) < BlockStart(block + 1, count, size)
    ensures block >= Blocks(count, size) ==> BlockStart(block, count, size) == count
  {
    var blocks := Blocks(count, size);
    assert (block + 1) * size == block * size + size;
    assert blocks * size <= count + size - 1 < blocks * size + size;
    if block < blocks {
      assert (block + 1) * size <= blocks * size by { MulMonotone(block + 1, blocks, size); }
    } else {
      MulMonotone(blocks, block, size);
    }
  }

  lemma {:induction false} MulMonotone(a: nat, b: nat, size: nat)
    requires a <= b
    ensures a * size <= b * size
  {
    if a < b {
      MulMonotone(a, b - 1, size);
    }
  }

  // A block has the given size; only the last may be cut short by the end.
  lemma BlockIsFull(block: nat, count: nat, size: nat)
    ensures BlockStart(block + 1, count, size) - BlockStart(block, count, size) <= size
    ensures
      || BlockStart(block + 1, count, size) - BlockStart(block, count, size) == size
      || BlockStart(block + 1, count, size) == count
  {
    assert (block + 1) * size == block * size + size;
  }

  // ----- Who writes what -----

  // The item is in a block that a run took and has not reached.
  ghost predicate Reserved(runs: seq<Run>, i: nat) {
    exists r :: 0 <= r < |runs| && runs[r].Filling? && runs[r].at <= i < runs[r].end
  }

  // The runs' remaining ranges lie before the frontier and do not meet.
  ghost predicate Apart(runs: seq<Run>, frontier: nat) {
    && (forall r :: 0 <= r < |runs| && runs[r].Filling? ==> runs[r].at < runs[r].end <= frontier)
    && (forall r, s :: 0 <= r < |runs| && 0 <= s < |runs| && r != s && runs[r].Filling? && runs[s].Filling? ==>
          runs[r].end <= runs[s].at || runs[s].end <= runs[r].at)
  }

  // No item is written twice; before the frontier all but the reserved ones are written,
  // unless a run gave up.
  ghost predicate Written(writes: seq<nat>, runs: seq<Run>, frontier: nat, stop: bool) {
    forall i :: 0 <= i < |writes| ==>
      && writes[i] <= 1
      && (i >= frontier || Reserved(runs, i) ==> writes[i] == 0)
      && (!stop && i < frontier && !Reserved(runs, i) ==> writes[i] == 1)
  }

  lemma ReservedAfter(runs: seq<Run>, r: nat, next: Run, i: nat)
    requires r < |runs|
    ensures Reserved(runs[r := next], i) ==> Reserved(runs, i) || (next.Filling? && next.at <= i < next.end)
    ensures next.Filling? && next.at <= i < next.end ==> Reserved(runs[r := next], i)
    ensures Reserved(runs, i) && !(runs[r].Filling? && runs[r].at <= i < runs[r].end) ==> Reserved(runs[r := next], i)
  {
    var after := runs[r := next];
    if next.Filling? && next.at <= i < next.end {
      assert after[r].at <= i < after[r].end;
    }
    if Reserved(runs, i) && !(runs[r].Filling? && runs[r].at <= i < runs[r].end) {
      var s :| 0 <= s < |runs| && runs[s].Filling? && runs[s].at <= i < runs[s].end;
      assert after[s] == runs[s];
    }
  }

  // A run takes the block between the old frontier and the new one.
  lemma BlockTaken(writes: seq<nat>, runs: seq<Run>, r: nat, frontier: nat, frontier': nat, stop: bool)
    requires r < |runs| && runs[r].Ready? && frontier < frontier'
    requires Apart(runs, frontier) && Written(writes, runs, frontier, stop)
    ensures Apart(runs[r := Filling(frontier, frontier')], frontier')
    ensures Written(writes, runs[r := Filling(frontier, frontier')], frontier', stop)
  {
    var after := runs[r := Filling(frontier, frontier')];
    forall i: nat | i < |writes|
      ensures Reserved(after, i) <==> Reserved(runs, i) || frontier <= i < frontier'
    {
      ReservedAfter(runs, r, Filling(frontier, frontier'), i);
    }
  }

  // A run leaves the loop or gives up and stops all; once all are stopped, a block may be
  // taken by nobody.
  lemma RunTurned(writes: seq<nat>, runs: seq<Run>, r: nat, next: Run, frontier: nat, frontier': nat, stop: bool,
      stop': bool)
    requires frontier' == frontier || (stop' && frontier' > frontier)
    requires r < |runs| && !next.Filling? && (runs[r].Filling? ==> stop') && (stop ==> stop')
    requires Apart(runs, frontier) && Written(writes, runs, frontier, stop)
    ensures Apart(runs[r := next], frontier') && Written(writes, runs[r := next], frontier', stop')
  {
    forall i | 0 <= i < |writes| {
      ReservedAfter(runs, r, next, i);
    }
  }

  // Where a run is after an item of its block.
  function Onward(at: nat, end: nat): Run {
    if at + 1 < end then Filling(at + 1, end) else Ready
  }

  lemma ItemWritten(writes: seq<nat>, runs: seq<Run>, r: nat, frontier: nat, stop: bool)
    requires r < |runs| && runs[r].Filling? && runs[r].end <= |writes|
    requires Apart(runs, frontier) && Written(writes, runs, frontier, stop)
    ensures writes[runs[r].at] == 0
    ensures Apart(runs[r := Onward(runs[r].at, runs[r].end)], frontier)
    ensures Written(writes[runs[r].at := 1], runs[r := Onward(runs[r].at, runs[r].end)], frontier, stop)
  {
    var at, next := runs[r].at, Onward(runs[r].at, runs[r].end);
    assert Reserved(runs, at);
    var after := runs[r := next];
    forall i: nat | i < |writes|
      ensures Reserved(after, i) <==> Reserved(runs, i) && i != at
    {
      ReservedAfter(runs, r, next, i);
    }
  }

  lemma RangeOf(runs: seq<Run>, r: nat, frontier: nat)
    requires r < |runs| && runs[r].Filling? && Apart(runs, frontier)
    ensures runs[r].at < runs[r].end <= frontier
  {
  }

  lemma HelperAdded(writes: seq<nat>, runs: seq<Run>, frontier: nat, stop: bool)
    requires Apart(runs, frontier) && Written(writes, runs, frontier, stop)
    ensures Apart(runs + [Ready], frontier) && Written(writes, runs + [Ready], frontier, stop)
  {
    forall i: nat
      ensures Reserved(runs + [Ready], i) <==> Reserved(runs, i)
    {
      if Reserved(runs, i) {
        var s :| 0 <= s < |runs| && runs[s].Filling? && runs[s].at <= i < runs[s].end;
        assert (runs + [Ready])[s] == runs[s];
      }
    }
  }

  // Once every run is past the loop and none gave up, each item was written just once.
  lemma AllWritten(writes: seq<nat>, runs: seq<Run>, frontier: nat)
    requires Written(writes, runs, frontier, false) && frontier >= |writes|
    requires forall r :: 0 <= r < |runs| ==> !runs[r].Filling?
    ensures forall i :: 0 <= i < |writes| ==> writes[i] == 1
  {
    forall i: nat
      ensures !Reserved(runs, i)
    {
    }
  }

  // ----- The shared work -----

  class Sharing<T(==)> {
    const size: nat
    const items: array<T>
    // What the work makes of each item.
    const made: nat -> T
    var nextBlock: nat
    var stop: bool
    var finished: nat
    // The calling thread first, then the helpers started.
    var runs: seq<Run>
    ghost const before: seq<T>
    // How often each item was written.
    ghost var writes: seq<nat>

    constructor (items: array<T>, size: nat, made: nat -> T)
      requires size > 0
      ensures Valid() && this.items == items && this.size == size && this.made == made
      ensures before == items[..] && runs == [Ready] && !stop && finished == 0 && nextBlock == 0
    {
      this.items, this.size, this.made, this.before := items, size, made, items[..];
      nextBlock, stop, finished := 0, false, 0;
      runs := [Ready];
      writes := seq(items.Length, i => 0);
    }

    // Everything from here on belongs to blocks that nobody has taken.
    ghost function Frontier(): nat
      reads this
    {
      BlockStart(nextBlock, items.Length, size)
    }

    ghost predicate Valid()
      reads this, items
    {
      && size > 0 && |writes| == items.Length && runs != []
      && Apart(runs, Frontier()) && Written(writes, runs, Frontier(), stop)
      && |before| == items.Length
      && (forall i :: 0 <= i < |writes| ==> items[i] == if writes[i] == 1 then made(i) else before[i])
      && (!stop ==> forall r :: 0 <= r < |runs| && !Running(runs[r]) ==> Frontier() == items.Length)
      && !runs[0].Counted?
      && |runs| == finished + Count(runs, Uncounted)
    }

    // ----- One step of one run -----

    method Turn(r: nat, next: Run)
      requires r < |runs| && !runs[r].Counted?
      modifies this`runs
      ensures runs == old(runs)[r := next]
      ensures Count(runs, Uncounted) == old(Count(runs, Uncounted)) - if next.Counted? then 1 else 0
    {
      CountUpdate(runs, Uncounted, r, next);
      runs := runs[r := next];
    }

    method Take(r: nat)
      requires Valid() && r < |runs| && runs[r].Ready?
      modifies this`nextBlock, this`runs
      ensures Valid() && |runs| == |old(runs)| && nextBlock == old(nextBlock) + 1
      ensures runs == old(runs)[r := runs[r]]
      ensures runs[r].Returned? || (runs[r].Filling? && old(nextBlock) < Blocks(items.Length, size))
    {
      hide Apart, Written, BlockStart, Blocks, Count;
      NextBlock(nextBlock, items.Length, size);
      var block := nextBlock;
      var start, end := BlockStart(block, items.Length, size), BlockStart(block + 1, items.Length, size);
      nextBlock := nextBlock + 1;
      if block < Blocks(items.Length, size) && !stop {
        BlockTaken(writes, runs, r, start, end, stop);
        Turn(r, Filling(start, end));
      } else {
        RunTurned(writes, runs, r, Returned, start, end, stop, stop);
        Turn(r, Returned);
      }
    }

    // Writes the next item of the run's block, or stops all when the work on it throws.
    method Fill(r: nat)
      requires Valid() && r < |runs| && runs[r].Filling?
      modifies this`stop, this`runs, this`writes, items
      ensures Valid() && |runs| == |old(runs)| && (old(stop) ==> stop)
      ensures runs == old(runs)[r := runs[r]] && !runs[r].Counted?
      ensures if runs[r].Returned? then stop && writes == old(writes)
              else Count(writes, Unwritten) < old(Count(writes, Unwritten))
    {
      hide Apart, Written, BlockStart, Count;
      var throws: bool := *;
      var at, end := runs[r].at, runs[r].end;
      assert at < end <= Frontier() by { RangeOf(runs, r, Frontier()); }
      if throws {
        RunTurned(writes, runs, r, Returned, Frontier(), Frontier(), stop, true);
        stop := true;
        Turn(r, Returned);
        return;
      }
      ItemWritten(writes, runs, r, Frontier(), stop);
      CountUpdate(writes, Unwritten, at, 1);
      items[at] := made(at);
      writes := writes[at := 1];
      Turn(r, Onward(at, end));
    }

    // A helper that is past the loop counts itself as finished.
    method Finish(r: nat)
      requires Valid() && 0 < r < |runs| && runs[r].Returned?
      modifies this`finished, this`runs
      ensures Valid() && runs == old(runs)[r := Counted] && finished == old(finished) + 1
    {
      hide Apart, Written, BlockStart, Count;
      RunTurned(writes, runs, r, Counted, Frontier(), Frontier(), stop, stop);
      finished := finished + 1;
      Turn(r, Counted);
    }

    method StartHelper()
      requires Valid() && runs[0].Ready?
      modifies this`runs
      ensures Valid() && runs == old(runs) + [Ready]
    {
      hide Apart, Written, BlockStart;
      HelperAdded(writes, runs, Frontier(), stop);
      CountAppend(runs, Uncounted, Ready);
      runs := runs + [Ready];
    }

    // ----- All runs, in any interleaving -----

    predicate MayStep(r: nat)
      reads this
    {
      r < |runs| && (Running(runs[r]) || (r > 0 && runs[r].Returned?))
    }

    method Step(r: nat)
      requires Valid() && MayStep(r)
      modifies this, items
      ensures Valid() && |runs| == |old(runs)| && runs == old(runs)[r := runs[r]]
      ensures Pending() < old(Pending())
              || (Pending() == old(Pending()) && old(nextBlock) < nextBlock <= Blocks(items.Length, size))
              || (Pending() == old(Pending()) && nextBlock == old(nextBlock)
                 && Count(writes, Unwritten) < old(Count(writes, Unwritten)))
    {
      hide Apart, Written, BlockStart, Blocks, Count;
      ghost var was := runs;
      if runs[r].Ready? {
        Take(r);
      } else if runs[r].Filling? {
        Fill(r);
      } else {
        Finish(r);
      }
      CountUpdate(was, Uncounted, r, runs[r]);
      CountUpdate(was, Running, r, runs[r]);
    }

    // The turns of runs that are still to come.
    ghost function Pending(): nat
      reads this
    {
      Count(runs, Uncounted) + Count(runs, Running)
    }

    /** The body runs here and on helpers that may start at any time, each at its own pace.
        It returns, and only after every helper did; unless some work threw, every item was
        made just once, as one thread alone would have made it. */
    method RunOnFreeThreads(helpers: nat) returns (ok: bool, started: nat)
      requires Valid() && runs == [Ready] && finished == 0
      modifies this, items
      ensures Valid() && |runs| == started + 1 && started <= helpers
      ensures runs[0].Returned? && forall r :: 1 <= r < |runs| ==> runs[r].Counted?
      ensures ok == !stop
      ensures ok ==> forall i :: 0 <= i < items.Length ==> writes[i] == 1 && items[i] == made(i)
    {
      hide Apart, Written, BlockStart, Blocks, Count;
      started := 0;
      var starting := true;
      while starting || Running(runs[0]) || finished != started
        invariant Valid() && |runs| == started + 1 && started <= helpers
        invariant starting ==> runs[0].Ready?
        decreases if starting then helpers - started + 1 else 0, Pending(),
                  Blocks(items.Length, size) - nextBlock, Count(writes, Unwritten)
      {
        HelpersLeft(runs);
        var startNow: bool := *;
        if starting && (startNow || forall r :: 1 <= r < |runs| ==> !MayStep(r)) {
          var accepted: bool := *;
          if accepted && started < helpers {
            StartHelper();
            started := started + 1;
          } else {
            starting := false;
          }
        } else {
          var first := if starting then 1 else 0;
          assert !starting ==> MayStep(0) || exists q: nat :: 1 <= q < |runs| && MayStep(q) by {
            if !starting && !Running(runs[0]) {
              var q: nat :| 1 <= q < |runs| && !runs[q].Counted?;
              assert MayStep(q);
            }
          }
          var r: nat :| first <= r < |runs| && MayStep(r);
          Step(r);
        }
      }
      HelpersLeft(runs);
      ok := !stop;
      if ok {
        AllWritten(writes, runs, Frontier());
      }
    }
  }

  // One run left uncounted is the calling thread's.
  lemma {:induction false} HelpersLeft(runs: seq<Run>)
    requires runs != [] && !runs[0].Counted?
    ensures Count(runs, Uncounted) >= 1
    ensures Count(runs, Uncounted) == 1 <==> forall r :: 1 <= r < |runs| ==> runs[r].Counted?
    decreases |runs|
  {
    if |runs| > 1 {
      HelpersLeft(runs[..|runs| - 1]);
    }
  }
}
