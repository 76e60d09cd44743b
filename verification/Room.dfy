/**
 How much a file can grow, read off the data bitmap. Growth fills the run of free blocks
 behind the last block, and then the free blocks from the least one up; it needs a new
 extent for every run it enters.
 */
module Room {
  import opened Bitmap
  import opened Images

  /** The number of free blocks in a row from `from` on, in a region of `size` blocks. */
  function RunLength(used: set<nat>, from: nat, size: nat): (r: nat)
    ensures forall b: nat | from <= b < from + r :: b !in used && b < size
    ensures from + r >= size || from + r in used
    decreases size - from
  {
    if from >= size || from in used then 0 else 1 + RunLength(used, from + 1, size)
  }

  /** The blocks from, ..., from + length - 1. */
  function Span(from: nat, length: nat): (r: set<nat>)
    ensures forall b: nat :: b in r <==> from <= b < from + length
  {
    if length == 0 then {} else Span(from, length - 1) + {from + length - 1}
  }

  /** How many runs of free blocks the first m free blocks from `at` on start. */
  function RunsEntered(used: set<nat>, at: nat, size: nat, m: nat): nat
    decreases size - at
  {
    if m == 0 || at >= size then 0
    else if at in used then RunsEntered(used, at + 1, size, m)
    else (if at == 0 || at - 1 in used then 1 else 0) + RunsEntered(used, at + 1, size, m - 1)
  }

  /** Room for n more blocks behind block `last`, with `extents` extents in use. */
  predicate RoomBehind(used: set<nat>, size: nat, free: nat, last: nat, extents: nat, n: nat) {
    var run := RunLength(used, last + 1, size);
    n <= free && extents + RunsEntered(used + Span(last + 1, run), 0, size, Minus(n, run)) <= 512
  }

  /** Room for the first n blocks, after block `table` has been taken for the extent table. */
  predicate RoomFromNothing(used: set<nat>, size: nat, free: nat, table: nat, n: nat) {
    n < free && RunsEntered(used + {table}, 0, size, n) <= 512
  }

  /** A block starts at most one run, so n extents always suffice for n blocks. */
  lemma {:induction false} RunsAtMost(used: set<nat>, at: nat, size: nat, m: nat)
    ensures RunsEntered(used, at, size, m) <= m
    decreases size - at
  {
    if m > 0 && at < size {
      RunsAtMost(used, at + 1, size, if at in used then m else m - 1);
    }
  }

  // Entering a run

  lemma {:induction false} SkipUsed(used: set<nat>, at: nat, end: nat, size: nat, m: nat)
    requires at <= end && forall b: nat | at <= b < end :: b in used
    ensures RunsEntered(used, at, size, m) == RunsEntered(used, end, size, m)
    decreases end - at
  {
    if at < end {
      SkipUsed(used, at + 1, end, size, m);
    }
  }

  /** Inside a run no new one starts. */
  lemma {:induction false} CrossRun(used: set<nat>, at: nat, length: nat, size: nat, m: nat)
    requires at > 0 && at - 1 !in used && at + length <= size && forall b: nat | at <= b < at + length :: b !in used
    ensures RunsEntered(used, at, size, m) == RunsEntered(used, at + length, size, Minus(m, length))
    decreases length
  {
    if m > 0 && length > 0 {
      CrossRun(used, at + 1, length - 1, size, m - 1);
    }
  }

  /** Only the blocks from at - 1 on matter. */
  lemma {:induction false} RunsAgree(used: set<nat>, other: set<nat>, at: nat, size: nat, m: nat)
    requires forall b: nat | at <= b + 1 :: b in used <==> b in other
    ensures RunsEntered(used, at, size, m) == RunsEntered(other, at, size, m)
    decreases size - at
  {
    if m > 0 && at < size {
      RunsAgree(used, other, at + 1, size, if at in used then m else m - 1);
    }
  }

  /** Entering the run of the least free block counts one, and fills that run. */
  lemma EnterRun(used: set<nat>, more: set<nat>, b: nat, size: nat, run: nat, m: nat)
    requires b < size && b !in used && more == used + {b} && m > 0 && run == RunLength(used, b + 1, size)
    requires forall c: nat | c < b :: c in used
    ensures RunsEntered(used, 0, size, m) == 1 + RunsEntered(more + Span(b + 1, run), 0, size, Minus(m, 1 + run))
  {
    var filled, next := more + Span(b + 1, run), b + 1 + run;
    SkipUsed(used, 0, b, size, m);
    CrossRun(used, b + 1, run, size, m - 1);
    SkipUsed(filled, 0, next, size, Minus(m, 1 + run));
    RunsAgree(used, filled, next + 1, size, Minus(m, 1 + run));
  }

  lemma {:induction false} RunKeeps(used: set<nat>, b: nat, from: nat, size: nat)
    requires b < from
    ensures RunLength(used + {b}, from, size) == RunLength(used, from, size)
    decreases size - from
  {
    if from < size && from !in used {
      RunKeeps(used, b, from + 1, size);
    }
  }

  // One block more

  lemma SpanMore(used: set<nat>, more: set<nat>, from: nat, run: nat)
    requires more == used + {from}
    ensures used + Span(from, 1 + run) == more + Span(from + 1, run)
    ensures used + Span(from, 0) == used
  {
  }

  /** Taking the next block uses up one block of the run behind the last. */
  lemma RoomAfterMerge(used: set<nat>, more: set<nat>, size: nat, free: nat, last: nat, extents: nat, n: nat)
    requires last + 1 < size && last + 1 !in used && more == used + {last + 1} && n > 0 && free > 0
    ensures RoomBehind(used, size, free, last, extents, n)
        <==> RoomBehind(more, size, free - 1, last + 1, extents, n - 1)
  {
    hide RunsEntered, Span;
    var run := RunLength(used, last + 2, size);
    RunKeeps(used, last + 1, last + 2, size);
    SpanMore(used, more, last + 1, run);
    assert Minus(n, 1 + run) == Minus(n - 1, run);
  }

  /** When the next block is not free, the least free one starts a new extent. */
  lemma RoomAfterOpen(used: set<nat>, more: set<nat>, size: nat, free: nat, last: nat, b: nat, extents: nat, n: nat)
    requires last + 1 >= size || last + 1 in used
    requires b < size && b !in used && (forall c: nat | c < b :: c in used) && more == used + {b} && n > 0 && free > 0
    ensures RoomBehind(used, size, free, last, extents, n)
        <==> extents < 512 && RoomBehind(more, size, free - 1, b, extents + 1, n - 1)
  {
    hide RunsEntered, Span;
    var run := RunLength(used, b + 1, size);
    EnterRun(used, more, b, size, run, n);
    RunKeeps(used, b, b + 1, size);
    SpanMore(used, used + {last + 1}, last + 1, 0);
    assert Minus(n, 1 + run) == Minus(n - 1, run);
  }

  /** The first two blocks of an empty file. */
  lemma RoomAfterStart(used: set<nat>, more: set<nat>, size: nat, free: nat, table: nat, b: nat, n: nat)
    requires b < size && b !in used && b != table && (forall c: nat | c < b :: c in used + {table})
    requires more == used + {table, b} && n > 0 && free > 1
    ensures RoomFromNothing(used, size, free, table, n) <==> RoomBehind(more, size, free - 2, b, 1, n - 1)
  {
    hide RunsEntered, Span;
    var run := RunLength(used + {table}, b + 1, size);
    assert more == used + {table} + {b};
    EnterRun(used + {table}, more, b, size, run, n);
    RunKeeps(used + {table}, b, b + 1, size);
    assert Minus(n, 1 + run) == Minus(n - 1, run);
  }

  lemma RoomForNothing(used: set<nat>, size: nat, free: nat, last: nat, extents: nat)
    ensures RoomBehind(used, size, free, last, extents, 0) <==> extents <= 512
  {
  }

  // Growing past the end of the region

  /**
   Growing by n blocks behind block `last` fills the region to its end with a block still
   to add and a block still free.
   */
  predicate OverrunsBehind(used: set<nat>, size: nat, free: nat, last: nat, n: nat) {
    && last < size && size - 1 - last < n && size - 1 - last < free
    && forall b: nat | last < b < size :: b !in used
  }

  lemma OverrunAfterMerge(used: set<nat>, size: nat, free: nat, last: nat, n: nat)
    requires last + 1 < size && last + 1 !in used && n > 0 && free > 0
    ensures OverrunsBehind(used, size, free, last, n)
        <==> OverrunsBehind(used + {last + 1}, size, free - 1, last + 1, n - 1)
  {
    if OverrunsBehind(used + {last + 1}, size, free - 1, last + 1, n - 1) {
      forall b: nat | last < b < size ensures b !in used {
        assert b == last + 1 || b !in used + {last + 1};
      }
    }
  }

  /** Starting over from the least free block never overruns: it fills every gap on its way. */
  lemma NoOverrunAfterOpen(used: set<nat>, size: nat, free: nat, b: nat, n: nat)
    requires b < size && b !in used && used <= Below(size) && free + |used| == size && n > 0 && free > 0
    requires forall c: nat | c < b :: c in used
    ensures !OverrunsBehind(used + {b}, size, free - 1, b, n - 1)
  {
    if OverrunsBehind(used + {b}, size, free - 1, b, n - 1) {
      forall c: nat | c in used ensures c < b {
        assert c > b ==> c !in used + {b};
      }
      assert used == Below(b);
      BelowSize(b);
    }
  }
}
