/**
 `determine_range_group` in readers_writers.c and testrw.c, which maps a
 thread id to the slot of its range in the table `initialize_ranges`
 built. It walks the sorted writers counting two slots per writer (the
 reader gap before it and the writer itself), while the table leaves an
 empty reader gap out: the two agree only when no gap is empty.
 */
module RangeGroups {
  import opened Writers
  import opened Sorting
  import opened Ranges

  /** The walk as written, from writer `ws[0]` on, with `group` the slot
      the walk has reached and `start` the first thread not yet passed. */
  function Scan(tid: int, ws: seq<int>, group: int, start: int): int
    decreases |ws|
  {
    if |ws| == 0 then
      (if tid >= start && tid < TotalThreads then group else -1)
    else
      var pos := ws[0];
      if tid >= start && tid < pos then group
      else if tid == pos then group + 1
      else Scan(tid, ws[1..], group + 2, pos + 1)
  }

  /** `determine_range_group`, with `ws` the sorted writer positions. */
  function DetermineRangeGroup(tid: int, ws: seq<int>): int {
    Scan(tid, ws, 0, 0)
  }

  /** The walk with the slot of a reader gap counted only when the gap is
      non-empty, as `initialize_ranges` lays the table out. */
  function ScanFixed(tid: int, ws: seq<int>, group: int, start: int): int
    decreases |ws|
  {
    if |ws| == 0 then
      (if tid >= start && tid < TotalThreads then group else -1)
    else
      var pos := ws[0];
      var g := group + (if pos > start then 1 else 0);
      if tid >= start && tid < pos then group
      else if tid == pos then g
      else ScanFixed(tid, ws[1..], g + 1, pos + 1)
  }

  /** The corrected `determine_range_group`. */
  function RangeGroup(tid: int, ws: seq<int>): int {
    ScanFixed(tid, ws, 0, 0)
  }

  /** No reader gap is empty: the first writer is past `start` and no two
      writers are adjacent. */
  predicate GapsNonEmpty(ws: seq<int>, start: int) {
    && (|ws| > 0 ==> ws[0] > start)
    && forall i :: 0 < i < |ws| ==> ws[i] > ws[i - 1] + 1
  }

  lemma GapsNonEmptyStep(ws: seq<int>, start: int)
    requires |ws| > 0
    ensures GapsNonEmpty(ws, start) <==> ws[0] > start && GapsNonEmpty(ws[1..], ws[0] + 1)
  {
    var tail := ws[1..];
    if ws[0] > start && GapsNonEmpty(tail, ws[0] + 1) {
      forall i | 1 < i < |ws| ensures ws[i] > ws[i - 1] + 1 {
        assert ws[i] == tail[i - 1] && ws[i - 1] == tail[i - 2];
      }
    }
    if GapsNonEmpty(ws, start) {
      forall i | 0 < i < |tail| ensures tail[i] > tail[i - 1] + 1 {
        assert tail[i] == ws[i + 1] && tail[i - 1] == ws[i];
      }
    }
  }

  /** For writer positions that are thread ids, the walk as written fails
      (returns -1) exactly for ids outside `0 .. TOTAL_THREADS-1`, and
      otherwise returns a slot no lower than where it started. */
  lemma {:induction false} ScanFailsOnlyOutside(tid: int, ws: seq<int>, group: int, start: int)
    requires InRange(ws) && 0 <= start && 0 <= group
    requires tid >= start || tid < 0
    ensures Scan(tid, ws, group, start) == -1 <==> tid < 0 || tid >= TotalThreads
    ensures Scan(tid, ws, group, start) != -1 ==> Scan(tid, ws, group, start) >= group
    decreases |ws|
  {
    if |ws| > 0 {
      var pos := ws[0];
      if !(tid >= start && tid < pos) && tid != pos {
        ScanFailsOnlyOutside(tid, ws[1..], group + 2, pos + 1);
      }
    }
  }

  /** `determine_range_group` returns -1 exactly for ids that are not
      thread ids. */
  lemma DetermineRangeGroupFails(tid: int, ws: seq<int>)
    requires InRange(ws)
    ensures DetermineRangeGroup(tid, ws) == -1 <==> tid < 0 || tid >= TotalThreads
    ensures DetermineRangeGroup(tid, ws) >= -1
  {
    ScanFailsOnlyOutside(tid, ws, 0, 0);
  }

  /** The corrected walk from `start` finds the slot of the range of the
      layout from `start` that contains `tid`. */
  lemma {:induction false} ScanFixedFinds(tid: int, ws: seq<int>, group: int, start: int)
    requires Placed(ws, start) && start <= tid < TotalThreads
    ensures group <= ScanFixed(tid, ws, group, start) < group + |LayoutFrom(ws, start, group)|
    ensures Contains(LayoutFrom(ws, start, group)[ScanFixed(tid, ws, group, start) - group], tid)
    decreases |ws|
  {
    if |ws| > 0 {
      var pos := ws[0];
      var readers := if pos > start then [Range(group, start, pos - 1, false, -1)] else [];
      var head := readers + [Range(group + |readers|, pos, pos, true, pos)];
      var rest := LayoutFrom(ws[1..], pos + 1, group + |readers| + 1);
      assert LayoutFrom(ws, start, group) == head + rest;
      if tid >= start && tid < pos {
        assert (head + rest)[0] == readers[0];
      } else if tid == pos {
        assert (head + rest)[|readers|] == head[|readers|];
      } else {
        PlacedTail(ws, start);
        ScanFixedFinds(tid, ws[1..], group + |readers| + 1, pos + 1);
        var g := ScanFixed(tid, ws[1..], group + |readers| + 1, pos + 1);
        assert (head + rest)[g - group] == rest[g - group - |head|];
      }
    }
  }

  /** The corrected `determine_range_group` returns, for every thread id,
      the slot of the one range of the table that contains it, and -1 for
      anything else. */
  lemma RangeGroupCorrect(tid: int, ws: seq<int>)
    requires Placed(ws, 0)
    ensures RangeGroup(tid, ws) == -1 <==> tid < 0 || tid >= TotalThreads
    ensures 0 <= tid < TotalThreads ==>
      && 0 <= RangeGroup(tid, ws) < |Layout(ws)|
      && Contains(Layout(ws)[RangeGroup(tid, ws)], tid)
      && Layout(ws)[RangeGroup(tid, ws)].rangeId == RangeGroup(tid, ws)
      && forall k :: 0 <= k < |Layout(ws)| && Contains(Layout(ws)[k], tid) ==> k == RangeGroup(tid, ws)
  {
    LayoutIsRangeTable(ws);
    if 0 <= tid < TotalThreads {
      ScanFixedFinds(tid, ws, 0, 0);
      forall k | 0 <= k < |Layout(ws)| && Contains(Layout(ws)[k], tid)
        ensures k == RangeGroup(tid, ws)
      {
        TilesDisjoint(Layout(ws), 0, tid, k, RangeGroup(tid, ws));
      }
    } else {
      ScanFixedFails(tid, ws, 0, 0);
    }
  }

  lemma {:induction false} ScanFixedFails(tid: int, ws: seq<int>, group: int, start: int)
    requires InRange(ws) && 0 <= start
    requires tid < 0 || tid >= TotalThreads
    ensures ScanFixed(tid, ws, group, start) == -1
    decreases |ws|
  {
    if |ws| > 0 {
      ScanFixedFails(tid, ws[1..], group + (if ws[0] > start then 1 else 0) + 1, ws[0] + 1);
    }
  }

  /** With no empty reader gap the walk as written and the corrected walk
      agree on every id. */
  lemma {:induction false} ScansAgree(tid: int, ws: seq<int>, group: int, start: int)
    requires GapsNonEmpty(ws, start)
    ensures Scan(tid, ws, group, start) == ScanFixed(tid, ws, group, start)
    decreases |ws|
  {
    if |ws| > 0 {
      GapsNonEmptyStep(ws, start);
      ScansAgree(tid, ws[1..], group + 2, ws[0] + 1);
    }
  }

  /** With an empty reader gap there is a thread id, the writer right
      after the first empty gap, that the walk as written places in a
      later slot than the corrected walk. */
  lemma {:induction false} EmptyGapMisgroups(ws: seq<int>, group: int, start: int) returns (tid: int)
    requires Placed(ws, start) && !GapsNonEmpty(ws, start)
    ensures start <= tid < TotalThreads && tid in ws
    ensures ScanFixed(tid, ws, group, start) < Scan(tid, ws, group, start)
    decreases |ws|
  {
    GapsNonEmptyStep(ws, start);
    if ws[0] == start {
      tid := start;
    } else {
      PlacedTail(ws, start);
      tid := EmptyGapMisgroups(ws[1..], group + 2, ws[0] + 1);
      assert tid in ws;
    }
  }

  /** `determine_range_group` agrees with the table on every id exactly
      when no writer sits at position 0 and no two writers are adjacent;
      otherwise some writer's id is sent past its own range. */
  lemma RangeGroupsAgreeIff(ws: seq<int>)
    requires Placed(ws, 0)
    ensures (forall tid :: DetermineRangeGroup(tid, ws) == RangeGroup(tid, ws)) <==> GapsNonEmpty(ws, 0)
  {
    if GapsNonEmpty(ws, 0) {
      forall tid ensures DetermineRangeGroup(tid, ws) == RangeGroup(tid, ws) {
        ScansAgree(tid, ws, 0, 0);
      }
    } else {
      var tid := EmptyGapMisgroups(ws, 0, 0);
      assert DetermineRangeGroup(tid, ws) != RangeGroup(tid, ws);
    }
  }

  /** A writer at position 0 is its own range, slot 0, but the walk as
      written sends it to slot 1. */
  lemma WriterAtZeroMisgrouped(ws: seq<int>)
    requires Placed(ws, 0) && |ws| > 0 && ws[0] == 0
    ensures Layout(ws)[0] == Range(0, 0, 0, true, 0)
    ensures RangeGroup(0, ws) == 0
    ensures DetermineRangeGroup(0, ws) == 1
  {
  }

  /** Past the last writer the walk as written answers two slots per
      writer. */
  lemma {:induction false} ScanPastWriters(tid: int, ws: seq<int>, group: int, start: int)
    requires start <= tid < TotalThreads
    requires forall i :: 0 <= i < |ws| ==> ws[i] < tid
    ensures Scan(tid, ws, group, start) == group + 2 * |ws|
    decreases |ws|
  {
    if |ws| > 0 {
      ScanPastWriters(tid, ws[1..], group + 2, ws[0] + 1);
    }
  }

  /** The table has at most two entries per writer plus one, and at most
      two per writer once a reader gap is empty. */
  lemma {:induction false} CountBound(ws: seq<int>, start: int)
    requires Placed(ws, start)
    ensures CountFrom(ws, start) <= 2 * |ws| + 1
    ensures !GapsNonEmpty(ws, start) ==> CountFrom(ws, start) <= 2 * |ws|
    decreases |ws|
  {
    if |ws| > 0 {
      GapsNonEmptyStep(ws, start);
      PlacedTail(ws, start);
      CountBound(ws[1..], ws[0] + 1);
    }
  }

  /** With an empty reader gap and readers after the last writer, the last
      thread is sent to slot `2 * WRITER_THREADS`, which is past the end of
      the table. */
  lemma LastThreadOutOfTable(ws: seq<int>)
    requires Placed(ws, 0) && !GapsNonEmpty(ws, 0)
    requires |ws| > 0 && ws[|ws| - 1] < TotalThreads - 1
    ensures DetermineRangeGroup(TotalThreads - 1, ws) == 2 * |ws|
    ensures DetermineRangeGroup(TotalThreads - 1, ws) >= |Layout(ws)|
  {
    ScanPastWriters(TotalThreads - 1, ws, 0, 0);
    CountBound(ws, 0);
    LayoutLength(ws, 0, 0);
  }

  /** The ten writers at the even positions 0, 2, .., 18. */
  function EvenWriters(): (ws: seq<int>)
    ensures |ws| == WriterThreads && Placed(ws, 0)
    ensures ws[0] == 0 && ws[|ws| - 1] == 18
  {
    seq(WriterThreads, i requires 0 <= i => 2 * i)
  }

  /** Writers at the even positions 0, 2, .., 18: thread 0 is sent to
      slot 1 instead of its own slot 0. */
  lemma EvenWritersMisgroupFirst()
    ensures DetermineRangeGroup(0, EvenWriters()) == 1 && RangeGroup(0, EvenWriters()) == 0
  {
    WriterAtZeroMisgrouped(EvenWriters());
  }

  /** With the same writers thread 999 is sent to slot 20, at or past the
      end of the table. */
  lemma EvenWritersMisgroupLast()
    ensures DetermineRangeGroup(TotalThreads - 1, EvenWriters()) == 20
    ensures |Layout(EvenWriters())| <= 20
  {
    LastThreadOutOfTable(EvenWriters());
  }
}
