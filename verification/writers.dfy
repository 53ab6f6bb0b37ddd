/**
 The thread population of readers_writers.c and testrw.c and the loop in
 their `main` that picks the writer positions: draw `rand() % 1000` until
 the value differs from every position already chosen, ten times over.
 The random numbers are a parameter: `draws` is the sequence `rand()`
 would return.
 */
module Writers {

  const TotalThreads: int := 1000
  const WriterThreads: nat := 10

  datatype Option<T> = None | Some(value: T)

  /** No position occurs twice. */
  predicate Distinct(ws: seq<int>) {
    forall i, j :: 0 <= i < j < |ws| ==> ws[i] != ws[j]
  }

  /** Every position is a thread id. */
  predicate InRange(ws: seq<int>) {
    forall i :: 0 <= i < |ws| ==> 0 <= ws[i] < TotalThreads
  }

  /** The positions chosen from `draws`, having already chosen `chosen`:
      each draw is reduced modulo the thread count and kept only if it is
      new, until `want` positions are held. `None` when the draws run out
      first. */
  function Pick(draws: seq<nat>, chosen: seq<int>, want: nat): (r: Option<seq<int>>)
    requires Distinct(chosen) && InRange(chosen) && |chosen| <= want
    ensures r.Some? ==> |r.value| == want && r.value[..|chosen|] == chosen
    ensures r.Some? ==> Distinct(r.value) && InRange(r.value)
    decreases |draws|
  {
    if |chosen| == want then Some(chosen)
    else if |draws| == 0 then None
    else
      var pos := draws[0] % TotalThreads;
      if pos in chosen then Pick(draws[1..], chosen, want)
      else
        var more := chosen + [pos];
        assert more[..|chosen|] == chosen;
        var r := Pick(draws[1..], more, want);
        assert r.Some? ==> r.value[..|chosen|] == r.value[..|more|][..|chosen|];
        r
  }

  /** The positions `draws` can still contribute: the residues of the
      draws modulo the thread count that are not in `chosen`. */
  function NewPositions(draws: seq<nat>, chosen: seq<int>): set<int> {
    set k | 0 <= k < |draws| && draws[k] % TotalThreads !in chosen :: draws[k] % TotalThreads
  }

  /** Dropping a draw whose position is already chosen loses nothing. */
  lemma NewPositionsSkip(draws: seq<nat>, chosen: seq<int>)
    requires |draws| > 0 && draws[0] % TotalThreads in chosen
    ensures NewPositions(draws[1..], chosen) == NewPositions(draws, chosen)
  {
    var a, b := NewPositions(draws[1..], chosen), NewPositions(draws, chosen);
    forall x | x in b ensures x in a {
      var k :| 0 <= k < |draws| && draws[k] % TotalThreads !in chosen && x == draws[k] % TotalThreads;
      assert draws[1..][k - 1] == draws[k];
    }
    forall x | x in a ensures x in b {
      var k :| 0 <= k < |draws| - 1 && draws[1..][k] % TotalThreads !in chosen && x == draws[1..][k] % TotalThreads;
      assert draws[k + 1] == draws[1..][k];
    }
  }

  /** Keeping a new position removes exactly that position from the ones
      still to be had. */
  lemma NewPositionsKeep(draws: seq<nat>, chosen: seq<int>)
    requires |draws| > 0 && draws[0] % TotalThreads !in chosen
    ensures NewPositions(draws[1..], chosen + [draws[0] % TotalThreads])
            == NewPositions(draws, chosen) - {draws[0] % TotalThreads}
  {
    var pos := draws[0] % TotalThreads;
    var more := chosen + [pos];
    var a, b := NewPositions(draws[1..], more), NewPositions(draws, chosen) - {pos};
    forall x | x in b ensures x in a {
      var k :| 0 <= k < |draws| && draws[k] % TotalThreads !in chosen && x == draws[k] % TotalThreads;
      assert k != 0;
      assert draws[1..][k - 1] == draws[k];
      assert x !in more;
    }
    forall x | x in a ensures x in b {
      var k :| 0 <= k < |draws| - 1 && draws[1..][k] % TotalThreads !in more && x == draws[1..][k] % TotalThreads;
      assert draws[k + 1] == draws[1..][k];
      assert x !in chosen && x != pos;
    }
  }

  /** The search succeeds exactly when the draws hold enough positions not
      yet chosen: it never discards a new position, and every position it
      keeps is one of them. */
  lemma {:induction false} PickSucceedsIff(draws: seq<nat>, chosen: seq<int>, want: nat)
    requires Distinct(chosen) && InRange(chosen) && |chosen| <= want
    ensures Pick(draws, chosen, want).Some? <==> |NewPositions(draws, chosen)| >= want - |chosen|
    decreases |draws|
  {
    if |chosen| < want && |draws| > 0 {
      var pos := draws[0] % TotalThreads;
      if pos in chosen {
        NewPositionsSkip(draws, chosen);
        PickSucceedsIff(draws[1..], chosen, want);
      } else {
        var more := chosen + [pos];
        NewPositionsKeep(draws, chosen);
        assert pos in NewPositions(draws, chosen);
        assert Distinct(more) && InRange(more);
        PickSucceedsIff(draws[1..], more, want);
      }
    }
  }

  /** The generation loop of `main`: for each writer, a do/while that draws
      a position and a scan of the earlier writers that breaks at the
      first clash. The result is `Pick`'s, so the positions are ten
      distinct thread ids. */
  method PickWriterPositions(draws: seq<nat>) returns (r: Option<seq<int>>)
    ensures r == Pick(draws, [], WriterThreads)
    ensures r.Some? ==> |r.value| == WriterThreads && Distinct(r.value) && InRange(r.value)
  {
    var writers: seq<int> := [];
    var next := 0;
    var i := 0;
    while i < WriterThreads
      invariant 0 <= i <= WriterThreads && |writers| == i && next <= |draws|
      invariant Distinct(writers) && InRange(writers)
      invariant Pick(draws[next..], writers, WriterThreads) == Pick(draws, [], WriterThreads)
    {
      var pos := 0;
      var unique := false;
      while !unique
        invariant next <= |draws|
        invariant 0 <= pos < TotalThreads
        invariant unique ==> pos !in writers
        invariant unique ==> Pick(draws[next..], writers + [pos], WriterThreads) == Pick(draws, [], WriterThreads)
        invariant !unique ==> Pick(draws[next..], writers, WriterThreads) == Pick(draws, [], WriterThreads)
        decreases |draws| - next, !unique
      {
        if next == |draws| {
          return None;
        }
        unique := true;
        pos := draws[next] % TotalThreads;
        assert draws[next..][1..] == draws[next + 1..];
        next := next + 1;
        var j := 0;
        while j < i
          invariant 0 <= j <= i
          invariant unique ==> forall k :: 0 <= k < j ==> writers[k] != pos
          invariant !unique ==> pos in writers
        {
          if writers[j] == pos {
            unique := false;
            break;
          }
          j := j + 1;
        }
      }
      writers := writers + [pos];
      i := i + 1;
    }
    r := Some(writers);
  }
}
