/**
 `initialize_ranges` in readers_writers.c and testrw.c: sort the writer
 positions, count the ranges, then lay out the ordered list of reader and
 writer ranges over thread ids `0 .. TOTAL_THREADS-1`. A reader range
 holds the threads strictly between two writers (or before the first,
 or after the last) and is left out when there are none; every writer is
 a range of its own.
 */
module Ranges {
  import opened Writers
  import opened Sorting

  /** One entry of the `ranges` table; the timing fields are left out. */
  datatype Range = Range(rangeId: int, startThread: int, endThread: int, isWriterRange: bool, writerId: int)

  predicate Contains(r: Range, tid: int) {
    r.startThread <= tid <= r.endThread
  }

  /** Sorted distinct writer positions, none below `start`: what the
      layout loops see from a given start position on. */
  predicate Placed(ws: seq<int>, start: int) {
    && 0 <= start <= TotalThreads
    && StrictlyAscending(ws)
    && forall i :: 0 <= i < |ws| ==> start <= ws[i] < TotalThreads
  }

  lemma PlacedTail(ws: seq<int>, start: int)
    requires Placed(ws, start) && |ws| > 0
    ensures Placed(ws[1..], ws[0] + 1)
  {
  }

  /** The first pass, from writer `ws[0]` on with the next unassigned
      thread at `start`: one range per non-empty reader gap and one per
      writer, plus the final reader gap if it is non-empty. */
  function CountFrom(ws: seq<int>, start: int): nat
    decreases |ws|
  {
    if |ws| == 0 then (if start < TotalThreads then 1 else 0)
    else (if ws[0] > start then 1 else 0) + 1 + CountFrom(ws[1..], ws[0] + 1)
  }

  /** `total_ranges` as the first pass computes it. */
  function CountRanges(ws: seq<int>): nat {
    CountFrom(ws, 0)
  }

  /** The second pass, from writer `ws[0]` on, with the next unassigned
      thread at `start` and the next free table slot `id`. */
  function LayoutFrom(ws: seq<int>, start: int, id: int): seq<Range>
    decreases |ws|
  {
    if |ws| == 0 then
      (if start < TotalThreads then [Range(id, start, TotalThreads - 1, false, -1)] else [])
    else
      var pos := ws[0];
      var readers := if pos > start then [Range(id, start, pos - 1, false, -1)] else [];
      readers + [Range(id + |readers|, pos, pos, true, pos)] + LayoutFrom(ws[1..], pos + 1, id + |readers| + 1)
  }

  /** The `ranges` table for sorted writer positions. */
  function Layout(ws: seq<int>): seq<Range> {
    LayoutFrom(ws, 0, 0)
  }

  /** The ranges tile thread ids `lo .. TOTAL_THREADS-1` in order: the first
      starts at `lo`, each is non-empty and starts right after the previous
      one ends, and the last ends at `TOTAL_THREADS - 1`. */
  predicate Tiles(rs: seq<Range>, lo: int) {
    && (|rs| == 0 <==> lo == TotalThreads)
    && (|rs| > 0 ==> rs[0].startThread == lo && rs[|rs| - 1].endThread == TotalThreads - 1)
    && Chain(rs)
  }

  /** Each range is non-empty and starts right after the previous one. */
  predicate Chain(rs: seq<Range>) {
    && (forall k :: 0 <= k < |rs| ==> rs[k].startThread <= rs[k].endThread)
    && (forall k :: 0 < k < |rs| ==> rs[k].startThread == rs[k - 1].endThread + 1)
  }

  /** A chain from `lo` followed by a tiling from just past its end tiles
      from `lo`. */
  lemma ChainThenTiles(head: seq<Range>, rest: seq<Range>, lo: int)
    requires |head| > 0 && head[0].startThread == lo < TotalThreads && Chain(head)
    requires Tiles(rest, head[|head| - 1].endThread + 1)
    ensures Tiles(head + rest, lo)
  {
    var rs := head + rest;
    forall k | 0 < k < |rs|
      ensures rs[k].startThread == rs[k - 1].endThread + 1
    {
      if k > |head| {
        assert rs[k] == rest[k - |head|] && rs[k - 1] == rest[k - 1 - |head|];
      }
    }
  }

  /** A writer range is the single thread it names, which is a writer; a
      reader range names no writer and contains no writer position. */
  predicate KindRight(r: Range, ws: seq<int>) {
    if r.isWriterRange then
      r.startThread == r.endThread == r.writerId && r.writerId in ws
    else
      r.writerId == -1 && forall i :: 0 <= i < |ws| ==> !Contains(r, ws[i])
  }

  /** Every range of the table has the right kind. */
  predicate KindsRight(rs: seq<Range>, ws: seq<int>) {
    forall k :: 0 <= k < |rs| ==> KindRight(rs[k], ws)
  }

  /** The writer ids of the writer ranges, in table order. */
  function WriterIds(rs: seq<Range>): seq<int>
    decreases |rs|
  {
    if |rs| == 0 then []
    else (if rs[0].isWriterRange then [rs[0].writerId] else []) + WriterIds(rs[1..])
  }

  lemma WriterIdsAppend(a: seq<Range>, b: seq<Range>)
    ensures WriterIds(a + b) == WriterIds(a) + WriterIds(b)
    decreases |a|
  {
    if |a| == 0 {
      assert a + b == b;
    } else {
      assert (a + b)[0] == a[0];
      assert (a + b)[1..] == a[1..] + b;
      WriterIdsAppend(a[1..], b);
    }
  }

  /** The table `initialize_ranges` promises for writer positions `ws`. */
  predicate RangeTable(rs: seq<Range>, ws: seq<int>) {
    && Tiles(rs, 0)
    && (forall k :: 0 <= k < |rs| ==> rs[k].rangeId == k)
    && KindsRight(rs, ws)
    && WriterIds(rs) == ws
    && ReadersApart(rs)
  }

  /** Every reader gap is one range: no two reader ranges are adjacent. */
  predicate ReadersApart(rs: seq<Range>) {
    forall k :: 0 < k < |rs| ==> rs[k - 1].isWriterRange || rs[k].isWriterRange
  }

  /** The layout from a writer on: its reader gap, if non-empty, then the
      writer, then the layout past it. */
  lemma LayoutFromFirst(ws: seq<int>, start: int, id: int)
    requires |ws| > 0
    ensures var readers := if ws[0] > start then [Range(id, start, ws[0] - 1, false, -1)] else [];
      LayoutFrom(ws, start, id)
        == readers + [Range(id + |readers|, ws[0], ws[0], true, ws[0])] + LayoutFrom(ws[1..], ws[0] + 1, id + |readers| + 1)
  {
  }

  /** The second pass fills exactly as many entries as the first pass
      counted. */
  lemma {:induction false} LayoutLength(ws: seq<int>, start: int, id: int)
    ensures |LayoutFrom(ws, start, id)| == CountFrom(ws, start)
    decreases |ws|
  {
    if |ws| > 0 {
      LayoutLength(ws[1..], ws[0] + 1, id + (if ws[0] > start then 1 else 0) + 1);
    }
  }

  /** Each entry's `range_id` is its slot. */
  lemma {:induction false} LayoutIds(ws: seq<int>, start: int, id: int)
    ensures forall k :: 0 <= k < |LayoutFrom(ws, start, id)| ==> LayoutFrom(ws, start, id)[k].rangeId == id + k
    decreases |ws|
  {
    if |ws| > 0 {
      var pos := ws[0];
      var n := if pos > start then 1 else 0;
      LayoutIds(ws[1..], pos + 1, id + n + 1);
    }
  }

  /** The layout tiles the thread ids from `start` on. */
  lemma {:induction false} LayoutTiles(ws: seq<int>, start: int, id: int)
    requires Placed(ws, start)
    ensures Tiles(LayoutFrom(ws, start, id), start)
    decreases |ws|
  {
    if |ws| > 0 {
      var pos := ws[0];
      var readers := if pos > start then [Range(id, start, pos - 1, false, -1)] else [];
      var head := readers + [Range(id + |readers|, pos, pos, true, pos)];
      var rest := LayoutFrom(ws[1..], pos + 1, id + |readers| + 1);
      assert LayoutFrom(ws, start, id) == head + rest;
      PlacedTail(ws, start);
      HeadChain(ws, start, id);
      LayoutTiles(ws[1..], pos + 1, id + |readers| + 1);
      ChainThenTiles(head, rest, start);
    }
  }

  /** The reader gap and writer range a layout begins with form a chain
      from `start` to the writer. */
  lemma HeadChain(ws: seq<int>, start: int, id: int)
    requires Placed(ws, start) && |ws| > 0
    ensures var readers := if ws[0] > start then [Range(id, start, ws[0] - 1, false, -1)] else [];
      var head := readers + [Range(id + |readers|, ws[0], ws[0], true, ws[0])];
      && Chain(head) && head[0].startThread == start < TotalThreads
      && head[|head| - 1].endThread == ws[0]
  {
  }

  /** Each range of the layout from `start` starts at `start` or later
      and has the right kind. */
  lemma {:induction false} LayoutKindAt(ws: seq<int>, start: int, id: int, k: nat)
    requires Placed(ws, start) && k < |LayoutFrom(ws, start, id)|
    ensures LayoutFrom(ws, start, id)[k].startThread >= start
    ensures KindRight(LayoutFrom(ws, start, id)[k], ws)
    decreases |ws|
  {
    if |ws| > 0 {
      var pos := ws[0];
      var readers := if pos > start then [Range(id, start, pos - 1, false, -1)] else [];
      var head := readers + [Range(id + |readers|, pos, pos, true, pos)];
      var rest := LayoutFrom(ws[1..], pos + 1, id + |readers| + 1);
      assert LayoutFrom(ws, start, id) == head + rest;
      if k < |readers| {
        assert forall i :: 0 < i < |ws| ==> ws[0] < ws[i];
      } else if k >= |head| {
        PlacedTail(ws, start);
        LayoutKindAt(ws[1..], pos + 1, id + |readers| + 1, k - |head|);
        var r := rest[k - |head|];
        if r.isWriterRange {
          assert r.writerId in ws[1..];
        } else {
          forall i | 0 < i < |ws| ensures !Contains(r, ws[i]) {
            assert ws[i] == ws[1..][i - 1];
          }
        }
      }
    }
  }

  /** Writer ranges are singletons naming their writer; reader ranges name
      no writer and contain none. */
  lemma LayoutKinds(ws: seq<int>, start: int, id: int)
    requires Placed(ws, start)
    ensures KindsRight(LayoutFrom(ws, start, id), ws)
  {
    forall k | 0 <= k < |LayoutFrom(ws, start, id)|
      ensures KindRight(LayoutFrom(ws, start, id)[k], ws)
    {
      LayoutKindAt(ws, start, id, k);
    }
  }

  /** The writer ranges list the writers in order, each exactly once. */
  lemma {:induction false} LayoutWriters(ws: seq<int>, start: int, id: int)
    ensures WriterIds(LayoutFrom(ws, start, id)) == ws
    decreases |ws|
  {
    if |ws| == 0 {
      var rs := LayoutFrom(ws, start, id);
      if |rs| > 0 {
        assert rs[1..] == [];
      }
    } else {
      var pos := ws[0];
      var readers := if pos > start then [Range(id, start, pos - 1, false, -1)] else [];
      var writer := Range(id + |readers|, pos, pos, true, pos);
      var rest := LayoutFrom(ws[1..], pos + 1, id + |readers| + 1);
      assert LayoutFrom(ws, start, id) == readers + [writer] + rest;
      WriterIdsOfHead(readers, writer, rest);
      LayoutWriters(ws[1..], pos + 1, id + |readers| + 1);
      assert ws == [pos] + ws[1..];
    }
  }

  /** An optional reader range and a writer range in front of `rest`
      contribute just the writer's id. */
  lemma WriterIdsOfHead(readers: seq<Range>, writer: Range, rest: seq<Range>)
    requires |readers| <= 1 && (|readers| == 1 ==> !readers[0].isWriterRange)
    requires writer.isWriterRange
    ensures WriterIds(readers + [writer] + rest) == [writer.writerId] + WriterIds(rest)
  {
    WriterIdsAppend(readers + [writer], rest);
    WriterIdsAppend(readers, [writer]);
    assert [writer][1..] == [];
    if |readers| == 1 {
      assert readers[1..] == [];
    }
  }

  /** The layout never puts two reader ranges side by side: a writer
      range separates each gap from the next. */
  lemma {:induction false} LayoutReadersApart(ws: seq<int>, start: int, id: int)
    ensures ReadersApart(LayoutFrom(ws, start, id))
    decreases |ws|
  {
    if |ws| > 0 {
      var readers := if ws[0] > start then [Range(id, start, ws[0] - 1, false, -1)] else [];
      var writer := Range(id + |readers|, ws[0], ws[0], true, ws[0]);
      var rest := LayoutFrom(ws[1..], ws[0] + 1, id + |readers| + 1);
      LayoutFromFirst(ws, start, id);
      LayoutReadersApart(ws[1..], ws[0] + 1, id + |readers| + 1);
      var rs := readers + [writer] + rest;
      forall k | 0 < k < |rs|
        ensures rs[k - 1].isWriterRange || rs[k].isWriterRange
      {
        if k - 1 > |readers| {
          assert rs[k - 1] == rest[k - 2 - |readers|] && rs[k] == rest[k - 1 - |readers|];
        } else if k - 1 == |readers| {
          assert rs[k - 1] == writer;
        } else {
          assert rs[k] == writer;
        }
      }
    }
  }

  /** For sorted distinct positions the layout is a table of the promised
      shape, with as many entries as the first pass counted. */
  lemma LayoutIsRangeTable(ws: seq<int>)
    requires Placed(ws, 0)
    ensures RangeTable(Layout(ws), ws)
    ensures |Layout(ws)| == CountRanges(ws)
  {
    LayoutTiles(ws, 0, 0);
    LayoutIds(ws, 0, 0);
    LayoutKinds(ws, 0, 0);
    LayoutWriters(ws, 0, 0);
    LayoutReadersApart(ws, 0, 0);
    LayoutLength(ws, 0, 0);
  }

  /** In a tiling, a range that starts after another's start begins past
      that range's end: no two ranges overlap. */
  lemma {:induction false} TilesOrdered(rs: seq<Range>, lo: int, a: nat, b: nat)
    requires Tiles(rs, lo) && a < b < |rs|
    ensures rs[b].startThread > rs[a].endThread
    decreases b - a
  {
    if b > a + 1 {
      TilesOrdered(rs, lo, a, b - 1);
    }
  }

  /** Each thread id lies in at most one range of a tiling. */
  lemma TilesDisjoint(rs: seq<Range>, lo: int, tid: int, a: nat, b: nat)
    requires Tiles(rs, lo) && a < |rs| && b < |rs|
    requires Contains(rs[a], tid) && Contains(rs[b], tid)
    ensures a == b
  {
    if a < b {
      TilesOrdered(rs, lo, a, b);
    } else if b < a {
      TilesOrdered(rs, lo, b, a);
    }
  }

  /** The first pass of `initialize_ranges`: `total_ranges`, which is the
      number of entries the second pass fills. */
  method CountPass(sorted: seq<int>) returns (total: nat)
    requires Placed(sorted, 0)
    ensures total == CountRanges(sorted)
    ensures total == |Layout(sorted)|
  {
    total := 0;
    var start := 0;
    var i := 0;
    while i < |sorted|
      invariant 0 <= i <= |sorted|
      invariant Placed(sorted[i..], start)
      invariant total + CountFrom(sorted[i..], start) == CountRanges(sorted)
    {
      assert sorted[i..][1..] == sorted[i + 1..];
      if sorted[i] > start {
        total := total + 1;
      }
      total := total + 1;
      start := sorted[i] + 1;
      i := i + 1;
    }
    if start < TotalThreads {
      total := total + 1;
    }
    LayoutLength(sorted, 0, 0);
  }

  /** One iteration of the filling loop appends the reader range (when its
      gap is non-empty) and the writer range that the layout from the
      current position begins with. */
  lemma FillStep(ws: seq<int>, start: int, prev: seq<Range>, mid: seq<Range>, next: seq<Range>)
    requires |ws| > 0
    requires mid == if ws[0] > start then prev + [Range(|prev|, start, ws[0] - 1, false, -1)] else prev
    requires next == mid + [Range(|mid|, ws[0], ws[0], true, ws[0])]
    ensures prev + LayoutFrom(ws, start, |prev|) == next + LayoutFrom(ws[1..], ws[0] + 1, |next|)
  {
    LayoutFromFirst(ws, start, |prev|);
    var readers := if ws[0] > start then [Range(|prev|, start, ws[0] - 1, false, -1)] else [];
    var head := readers + [Range(|prev| + |readers|, ws[0], ws[0], true, ws[0])];
    var rest := LayoutFrom(ws[1..], ws[0] + 1, |prev| + |readers| + 1);
    assert next == prev + head;
    assert prev + (head + rest) == (prev + head) + rest;
  }

  /** The second pass of `initialize_ranges`: the table, slot by slot,
      is the layout of the sorted writers. */
  method FillPass(sorted: seq<int>) returns (ranges: seq<Range>)
    requires Placed(sorted, 0)
    ensures ranges == Layout(sorted)
  {
    ranges := [];
    var start := 0;
    var i := 0;
    while i < |sorted|
      invariant 0 <= i <= |sorted|
      invariant Placed(sorted[i..], start)
      invariant ranges + LayoutFrom(sorted[i..], start, |ranges|) == Layout(sorted)
    {
      var pos := sorted[i];
      ghost var prev := ranges;
      if pos > start {
        ranges := ranges + [Range(|ranges|, start, pos - 1, false, -1)];
      }
      ghost var mid := ranges;
      ranges := ranges + [Range(|ranges|, pos, pos, true, pos)];
      assert sorted[i..][0] == pos && sorted[i..][1..] == sorted[i + 1..];
      PlacedTail(sorted[i..], start);
      FillStep(sorted[i..], start, prev, mid, ranges);
      start := pos + 1;
      i := i + 1;
    }
    if start < TotalThreads {
      ranges := ranges + [Range(|ranges|, start, TotalThreads - 1, false, -1)];
    }
  }

  /** `initialize_ranges`: the bubble sort, the counting pass and the
      filling pass. The positions come back sorted, the table has exactly
      `total_ranges` entries, and it is the layout of the sorted writers:
      a tiling of every thread id by singleton writer ranges and non-empty
      reader ranges, slot numbers as ids. */
  method InitializeRanges(writers: seq<int>) returns (sorted: seq<int>, total: nat, ranges: seq<Range>)
    requires Distinct(writers) && InRange(writers)
    ensures multiset(sorted) == multiset(writers) && StrictlyAscending(sorted)
    ensures total == |ranges|
    ensures ranges == Layout(sorted)
    ensures RangeTable(ranges, sorted)
  {
    sorted := BubbleSort(writers);
    SortedDistinct(writers, sorted);
    SortedInRange(writers, sorted);
    total := CountPass(sorted);
    ranges := FillPass(sorted);
    LayoutIsRangeTable(sorted);
  }
}
