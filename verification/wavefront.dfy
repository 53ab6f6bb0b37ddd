/**
 The wavefront scheduler of thread.c (`process_wavefront`,
 `dither_image_mt`). Cells are grouped by anti-diagonal `d = x + y`;
 worker `t` of `n` owns the diagonals with `d % n == t` and walks them in
 ascending `d`, each diagonal in ascending `y`. Before reading a cell a
 worker blocks until its up-right neighbour `(x+1, y-1)` and its left
 neighbour `(x-1, y)` are marked processed.

 Concurrency is modelled by its possible outcomes: an execution is any
 order of the cells that keeps every worker's own order and puts every
 waited-on cell before the cell that waits for it; each cell's kernel
 application is one atomic `Kernel.Step`.
 */
module Wavefront {
  import opened FloorDivision
  import opened Grids
  import opened Kernel
  import opened Reference
  import opened Sequential

  /** The worker that owns diagonal `d` when there are `n` workers. */
  function Owner(d: nat, n: nat): (t: nat)
    requires n > 0
    ensures t < n
  {
    d % n
  }

  /** The number of diagonals the outer loop visits: `width + height - 1`. */
  function DiagonalCount(w: nat, h: nat): nat {
    if w + h == 0 then 0 else w + h - 1
  }

  /** Every in-bounds cell lies on a diagonal `0 <= d <= width + height - 2`. */
  lemma DiagonalInRange(w: nat, h: nat, c: Cell)
    requires InBounds(w, h, c)
    ensures Diag(c) < DiagonalCount(w, h) && Diag(c) <= w + h - 2
  {
  }

  /** The in-bounds cells of diagonal `d` in rows `0 .. k-1`, in the order
      the inner loop (`y` ascending, `x = d - y`) visits them. */
  function DiagonalPrefix(w: nat, d: nat, k: nat): (cells: seq<Cell>)
    ensures forall c :: c in cells <==> c.x < w && c.y < k && Diag(c) == d
    ensures forall i :: 0 <= i < |cells| ==> cells[i].x < w && cells[i].y < k && Diag(cells[i]) == d
    ensures forall i, j :: 0 <= i < j < |cells| ==> cells[i].y < cells[j].y
  {
    if k == 0 then []
    else
      var prev := DiagonalPrefix(w, d, k - 1);
      var here := if k - 1 <= d && d - (k - 1) < w then [Cell(d - (k - 1), k - 1)] else [];
      assert forall c :: c in here <==> c.x < w && c.y == k - 1 && Diag(c) == d;
      prev + here
  }

  /** The cells worker `t` of `n` processes on diagonals `0 .. D-1`, in its
      processing order. */
  function Schedule(w: nat, h: nat, n: nat, t: nat, D: nat): (cells: seq<Cell>)
    requires n > 0
    ensures forall c :: c in cells <==> InBounds(w, h, c) && Diag(c) < D && Owner(Diag(c), n) == t
    ensures forall k :: 0 <= k < |cells| ==> InBounds(w, h, cells[k]) && Diag(cells[k]) < D
    ensures forall i, j :: 0 <= i < j < |cells| ==> WavefrontLess(cells[i], cells[j])
  {
    if D == 0 then []
    else
      var prev := Schedule(w, h, n, t, D - 1);
      var diag := if Owner(D - 1, n) == t then DiagonalPrefix(w, D - 1, h) else [];
      var cells := prev + diag;
      forall i, j | 0 <= i < j < |cells|
        ensures WavefrontLess(cells[i], cells[j])
      {
        if i < |prev| <= j {
          assert Diag(cells[i]) < D - 1 == Diag(cells[j]);
        }
      }
      cells
  }

  /** `process_wavefront` for worker `t`: every in-bounds cell of every
      diagonal the worker owns, in ascending wavefront order (so no cell
      twice). */
  function WorkerCells(w: nat, h: nat, n: nat, t: nat): (cells: seq<Cell>)
    requires n > 0 && t < n
    ensures forall c :: c in cells <==> InBounds(w, h, c) && Owner(Diag(c), n) == t
    ensures forall k :: 0 <= k < |cells| ==> InBounds(w, h, cells[k])
    ensures forall i, j :: 0 <= i < j < |cells| ==> WavefrontLess(cells[i], cells[j])
  {
    assert forall c :: InBounds(w, h, c) ==> Diag(c) < DiagonalCount(w, h);
    Schedule(w, h, n, t, DiagonalCount(w, h))
  }

  /** Each in-bounds cell is processed by exactly one worker, the owner of
      its diagonal. */
  lemma EachCellHasOneWorker(w: nat, h: nat, n: nat, c: Cell, t: nat)
    requires n > 0 && t < n && InBounds(w, h, c)
    ensures c in WorkerCells(w, h, n, t) <==> t == Diag(c) % n
  {
  }

  /** The diagonal linearisation: the order a single worker would use. */
  function WavefrontOrder(w: nat, h: nat): seq<Cell> {
    WorkerCells(w, h, 1, 0)
  }

  lemma WavefrontLessIsStrict(a: Cell, b: Cell)
    ensures WavefrontLess(a, b) ==> !WavefrontLess(b, a)
  {
  }

  /** Every in-bounds target of the kernel at `c` comes strictly after `c`
      in wavefront order as well. */
  lemma TargetsFollowInWavefront(c: Cell, t: Cell)
    requires Weight(c, t) != 0
    ensures WavefrontLess(c, t)
  {
  }

  /** The diagonal linearisation visits every cell exactly once, each after
      all of its contributors. */
  lemma WavefrontOrderIsValid(w: nat, h: nat)
    ensures CoversGrid(w, h, WavefrontOrder(w, h))
    ensures ContributorsFirst(w, WavefrontOrder(w, h))
  {
    var order := WavefrontOrder(w, h);
    forall c: Cell ensures Owner(Diag(c), 1) == 0 {
    }
    forall c, t | Weight(c, t) != 0
      ensures WavefrontLess(c, t)
    {
      TargetsFollowInWavefront(c, t);
    }
    SortedOrderPutsContributorsFirst(w, h, order, WavefrontLess);
  }

  /** The diagonal linearisation gives exactly the row-major result, on
      every grid. */
  lemma LinearisationMatchesSequential(input: Grid, w: nat, h: nat)
    requires IsGrid(input, w, h)
    ensures Run(Init(input, w, h), w, h, WavefrontOrder(w, h)) == DitherSt(input, w, h)
  {
    WavefrontOrderIsValid(w, h);
    RowMajorIsValidOrder(w, h);
    OrdersAgree(input, w, h, WavefrontOrder(w, h), RowMajor(w, h));
  }

  /** The wait rule as written, and the corrected one that also waits on
      the cell above when there is no up-right neighbour. */
  datatype WaitRule = AsWritten | Corrected

  /** Cell `c` blocks until cell `a` is processed. */
  predicate WaitsFor(rule: WaitRule, w: nat, c: Cell, a: Cell) {
    || (c.y > 0 && c.x + 1 < w && a == Cell(c.x + 1, c.y - 1))
    || (c.x > 0 && a == Cell(c.x - 1, c.y))
    || (rule == Corrected && c.y > 0 && c.x + 1 >= w && a == Cell(c.x, c.y - 1))
  }

  /** A waited-on cell is in bounds and either on the previous diagonal or
      one row up on the same diagonal, hence earlier in the owner's walk:
      no worker ever waits on a cell that comes later in wavefront order. */
  lemma WaitTargetsPrecede(rule: WaitRule, w: nat, h: nat, c: Cell, a: Cell)
    requires InBounds(w, h, c) && WaitsFor(rule, w, c, a)
    ensures InBounds(w, h, a)
    ensures Diag(a) + 1 == Diag(c) || (Diag(a) == Diag(c) && a.y + 1 == c.y)
    ensures WavefrontLess(a, c)
  {
  }

  /** Every waited-on cell of `order` comes before its waiter. */
  predicate RespectsWaits(rule: WaitRule, w: nat, order: seq<Cell>) {
    forall i, j :: 0 <= i < |order| && 0 <= j < |order| && WaitsFor(rule, w, order[i], order[j]) ==> j < i
  }

  /** Two cells owned by the same worker appear in that worker's order. */
  predicate KeepsProgramOrder(n: nat, order: seq<Cell>)
    requires n > 0
  {
    forall i, j :: 0 <= i < j < |order| && Owner(Diag(order[i]), n) == Owner(Diag(order[j]), n) ==>
      WavefrontLess(order[i], order[j])
  }

  /** A possible outcome of `n` workers running `process_wavefront`: every
      cell once, each worker in its own order, every wait honoured. */
  ghost predicate IsExecution(rule: WaitRule, w: nat, h: nat, n: nat, order: seq<Cell>)
    requires n > 0
  {
    CoversGrid(w, h, order) && KeepsProgramOrder(n, order) && RespectsWaits(rule, w, order)
  }

  /** The diagonal linearisation is an execution for every worker count,
      under either wait rule. */
  lemma LinearisationIsExecution(rule: WaitRule, w: nat, h: nat, n: nat)
    requires n > 0
    ensures IsExecution(rule, w, h, n, WavefrontOrder(w, h))
  {
    var order := WavefrontOrder(w, h);
    WavefrontOrderIsValid(w, h);
    SortedKeepsProgramOrder(n, order);
    SortedRespectsWaits(rule, w, h, order);
  }

  /** An order sorted by wavefront position keeps every worker's walk. */
  lemma SortedKeepsProgramOrder(n: nat, order: seq<Cell>)
    requires n > 0
    requires forall i, j :: 0 <= i < j < |order| ==> WavefrontLess(order[i], order[j])
    ensures KeepsProgramOrder(n, order)
  {
  }

  /** An in-bounds order sorted by wavefront position honours every wait. */
  lemma SortedRespectsWaits(rule: WaitRule, w: nat, h: nat, order: seq<Cell>)
    requires forall k :: 0 <= k < |order| ==> InBounds(w, h, order[k])
    requires forall i, j :: 0 <= i < j < |order| ==> WavefrontLess(order[i], order[j])
    ensures RespectsWaits(rule, w, order)
  {
    forall i, j | 0 <= i < |order| && 0 <= j < |order| && WaitsFor(rule, w, order[i], order[j])
      ensures j < i
    {
      WaitTargetsPrecede(rule, w, h, order[i], order[j]);
      WavefrontLessIsStrict(order[j], order[i]);
    }
  }

  /** The position of a cell in an execution is where it was found. */
  lemma PosOfIndex(order: seq<Cell>, k: nat)
    requires NoDup(order) && k < |order|
    ensures Pos(order, order[k]) == k
  {
  }

  /** In an execution, a waited-on cell is processed before its waiter. */
  lemma WaitedBefore(rule: WaitRule, w: nat, h: nat, order: seq<Cell>, c: Cell, a: Cell)
    requires CoversGrid(w, h, order) && RespectsWaits(rule, w, order)
    requires InBounds(w, h, c) && WaitsFor(rule, w, c, a)
    ensures a in order && c in order && Pos(order, a) < Pos(order, c)
  {
    WaitTargetsPrecede(rule, w, h, c, a);
    var i, j := Pos(order, c), Pos(order, a);
    assert WaitsFor(rule, w, order[i], order[j]);
  }

  /** The cell above `c` is processed before `c`: through the left
      neighbour, through the up-right neighbour, or (one column, corrected
      rule) directly. */
  lemma AboveBefore(rule: WaitRule, w: nat, h: nat, order: seq<Cell>, c: Cell)
    requires rule == Corrected || w >= 2
    requires CoversGrid(w, h, order) && RespectsWaits(rule, w, order)
    requires InBounds(w, h, c) && c.y > 0
    ensures Cell(c.x, c.y - 1) in order && c in order
    ensures Pos(order, Cell(c.x, c.y - 1)) < Pos(order, c)
  {
    var e := Cell(c.x, c.y - 1);
    if c.x > 0 {
      var a := Cell(c.x - 1, c.y);
      WaitedBefore(rule, w, h, order, c, a);
      WaitedBefore(rule, w, h, order, a, e);
    } else if c.x + 1 < w {
      var a := Cell(c.x + 1, c.y - 1);
      WaitedBefore(rule, w, h, order, c, a);
      WaitedBefore(rule, w, h, order, a, e);
    } else {
      WaitedBefore(rule, w, h, order, c, e);
    }
  }

  /** The up-left cell is processed before `c`, through the chain
      left, then up-right, then left. */
  lemma UpLeftBefore(rule: WaitRule, w: nat, h: nat, order: seq<Cell>, c: Cell)
    requires CoversGrid(w, h, order) && RespectsWaits(rule, w, order)
    requires InBounds(w, h, c) && c.y > 0 && c.x > 0
    ensures Cell(c.x - 1, c.y - 1) in order && c in order
    ensures Pos(order, Cell(c.x - 1, c.y - 1)) < Pos(order, c)
  {
    var a := Cell(c.x - 1, c.y);
    var b := Cell(c.x, c.y - 1);
    WaitedBefore(rule, w, h, order, c, a);
    WaitedBefore(rule, w, h, order, a, b);
    WaitedBefore(rule, w, h, order, b, Cell(c.x - 1, c.y - 1));
  }

  /** With at least two columns, or under the corrected rule, the waits
      order every contributor of a cell before the cell: the left and
      up-right neighbours directly, the cell above through one of them,
      and the up-left cell through a chain of three waits. */
  lemma WaitsOrderContributors(rule: WaitRule, w: nat, h: nat, order: seq<Cell>)
    requires rule == Corrected || w >= 2
    requires CoversGrid(w, h, order) && RespectsWaits(rule, w, order)
    ensures ContributorsFirst(w, order)
  {
    forall k | 0 <= k < |order|
      ensures ContributorsIn(w, order[k], order[..k])
    {
      var c := order[k];
      PosOfIndex(order, k);
      if c.x > 0 {
        WaitedBefore(rule, w, h, order, c, Cell(c.x - 1, c.y));
        InPrefix(order, Cell(c.x - 1, c.y), k);
      }
      if c.y > 0 && c.x + 1 < w {
        WaitedBefore(rule, w, h, order, c, Cell(c.x + 1, c.y - 1));
        InPrefix(order, Cell(c.x + 1, c.y - 1), k);
      }
      if c.y > 0 {
        AboveBefore(rule, w, h, order, c);
        InPrefix(order, Cell(c.x, c.y - 1), k);
      }
      if c.y > 0 && c.x > 0 {
        UpLeftBefore(rule, w, h, order, c);
        InPrefix(order, Cell(c.x - 1, c.y - 1), k);
      }
    }
  }

  lemma InPrefix(order: seq<Cell>, e: Cell, k: nat)
    requires e in order && Pos(order, e) < k <= |order|
    ensures e in order[..k]
  {
    assert order[..k][Pos(order, e)] == e;
  }

  /** On a grid at least two cells wide the extra wait of the corrected
      rule is already implied by the others, so both rules admit exactly
      the same executions. */
  lemma RulesAgreeOnWideImages(w: nat, h: nat, n: nat, order: seq<Cell>)
    requires n > 0 && w >= 2
    ensures IsExecution(AsWritten, w, h, n, order) <==> IsExecution(Corrected, w, h, n, order)
  {
    if IsExecution(AsWritten, w, h, n, order) {
      forall i, j | 0 <= i < |order| && 0 <= j < |order| && WaitsFor(Corrected, w, order[i], order[j])
        ensures j < i
      {
        if !WaitsFor(AsWritten, w, order[i], order[j]) {
          AboveBefore(AsWritten, w, h, order, order[i]);
          PosOfIndex(order, i);
          PosOfIndex(order, j);
        }
      }
    }
  }

  /** Every execution of the wavefront engine on a grid at least two cells
      wide, and every execution under the corrected wait rule on any grid,
      ends in exactly the state of the sequential engine. */
  lemma ExecutionsMatchSequential(rule: WaitRule, input: Grid, w: nat, h: nat, n: nat, order: seq<Cell>)
    requires IsGrid(input, w, h) && n > 0
    requires rule == Corrected || w >= 2
    requires IsExecution(rule, w, h, n, order)
    ensures Run(Init(input, w, h), w, h, order) == DitherSt(input, w, h)
  {
    WaitsOrderContributors(rule, w, h, order);
    RowMajorIsValidOrder(w, h);
    OrdersAgree(input, w, h, order, RowMajor(w, h));
  }

  /** Consecutive diagonals have different owners when there are at least
      two workers. */
  lemma ConsecutiveOwnersDiffer(d: nat, n: nat)
    requires n >= 2
    ensures Owner(d, n) != Owner(d + 1, n)
  {
    var q, r := d / n, d % n;
    assert d == q * n + r;
    if r + 1 < n {
      ModUnique(d + 1, n, q, r + 1);
    } else {
      assert (q + 1) * n == q * n + n;
      ModUnique(d + 1, n, q + 1, 0);
    }
  }

  /** On a one-column grid the cell below never waits for anything, yet it
      receives 5/16 of the error of the cell above, which another worker
      owns whenever there are two or more. */
  lemma WidthOneLeavesAboveUnguarded(n: nat, y: nat, a: Cell)
    requires n >= 2 && y > 0
    ensures !WaitsFor(AsWritten, 1, Cell(0, y), a)
    ensures Weight(Cell(0, y - 1), Cell(0, y)) == 5
    ensures Owner(Diag(Cell(0, y - 1)), n) != Owner(Diag(Cell(0, y)), n)
  {
    ConsecutiveOwnersDiffer(y - 1, n);
  }

  /** A one-column grid of height `h` holding 100 everywhere. */
  function RaceInput(h: nat): (g: Grid)
    ensures IsGrid(g, 1, h)
  {
    Filled(1, h, 100)
  }

  /** The column in top-to-bottom order except that (0, 1) comes before
      (0, 0): the worker owning diagonal 1 runs ahead of the one owning
      diagonal 0. */
  function RaceOrder(h: nat): (order: seq<Cell>)
    requires h >= 2
    ensures |order| == h && forall k :: 0 <= k < h ==> order[k] == RaceCell(k)
  {
    seq(h, k requires 0 <= k => RaceCell(k))
  }

  /** The `k`-th cell of the race order. */
  function RaceCell(k: nat): Cell {
    if k == 0 then Cell(0, 1) else if k == 1 then Cell(0, 0) else Cell(0, k)
  }

  lemma RaceOrderCovers(h: nat)
    requires h >= 2
    ensures CoversGrid(1, h, RaceOrder(h))
  {
    var order := RaceOrder(h);
    forall c | InBounds(1, h, c) ensures c in order {
      if c.y == 0 {
        assert order[1] == c;
      } else if c.y == 1 {
        assert order[0] == c;
      } else {
        assert order[c.y] == c;
      }
    }
  }

  lemma RaceOrderNeverWaits(h: nat)
    requires h >= 2
    ensures RespectsWaits(AsWritten, 1, RaceOrder(h))
  {
    var order := RaceOrder(h);
    forall i, j | 0 <= i < h && 0 <= j < h
      ensures !WaitsFor(AsWritten, 1, order[i], order[j])
    {
      assert order[i].x == 0;
    }
  }

  /** The race order is a possible execution of the wait rule as written
      on a one-column grid, for every worker count above one. */
  lemma RaceOrderIsExecution(h: nat, n: nat)
    requires h >= 2 && n >= 2
    ensures IsExecution(AsWritten, 1, h, n, RaceOrder(h))
  {
    RaceOrderCovers(h);
    RaceOrderNeverWaits(h);
    RaceOrderAscendsFromSecond(h);
    FirstPairSwappedKeepsProgramOrder(n, RaceOrder(h));
  }

  /** Every cell of `order` from index `m` on comes after all the cells
      before it in wavefront order. */
  predicate WavefrontOrderedFrom(order: seq<Cell>, m: nat) {
    forall i, j :: 0 <= i < j < |order| && m <= j ==> WavefrontLess(order[i], order[j])
  }

  /** Apart from its first two cells, the race order is in wavefront
      order. */
  lemma RaceOrderAscendsFromSecond(h: nat)
    requires h >= 2
    ensures WavefrontOrderedFrom(RaceOrder(h), 2)
  {
    var order := RaceOrder(h);
    forall i, j | 0 <= i < j < h && 2 <= j
      ensures WavefrontLess(order[i], order[j])
    {
      assert Diag(order[j]) == j;
      if 2 <= i {
        assert Diag(order[i]) == i;
      }
    }
  }

  /** An order that is in wavefront order except that its first cell lies
      one diagonal after its second keeps every worker's order: with two
      or more workers those two diagonals have different owners. */
  lemma FirstPairSwappedKeepsProgramOrder(n: nat, order: seq<Cell>)
    requires n >= 2 && |order| >= 2
    requires Diag(order[0]) == Diag(order[1]) + 1
    requires WavefrontOrderedFrom(order, 2)
    ensures KeepsProgramOrder(n, order)
  {
    ConsecutiveOwnersDiffer(Diag(order[1]), n);
  }

  /** (0, 1) goes first, with nothing pushed into it yet, so it turns
      black; no later step of the race order writes it again. */
  lemma RaceRunOutput(h: nat)
    requires h >= 2
    ensures Run(Init(RaceInput(h), 1, h), 1, h, RaceOrder(h)).output[1][0] == Black
  {
    var order := RaceOrder(h);
    var init := Init(RaceInput(h), 1, h);
    var first, rest := [Cell(0, 1)], order[1..];
    assert order == first + rest;
    RunAppend(init, 1, h, first, rest);
    RaceFirstStep(h);
    RaceRestSkipsFirst(h);
    RunKeepsUnvisitedOutput(Run(init, 1, h, first), 1, h, rest, Cell(0, 1));
  }

  lemma RaceFirstStep(h: nat)
    requires h >= 2
    ensures Run(Init(RaceInput(h), 1, h), 1, h, [Cell(0, 1)]).output[1][0] == Black
  {
    var init := Init(RaceInput(h), 1, h);
    assert [Cell(0, 1)] == [] + [Cell(0, 1)];
    RunSnoc(init, 1, h, [], Cell(0, 1));
    assert init.work[1][0] == 100;
  }

  lemma RaceRestSkipsFirst(h: nat)
    requires h >= 2
    ensures Cell(0, 1) !in RaceOrder(h)[1..]
  {
    var rest := RaceOrder(h)[1..];
    forall k | 0 <= k < |rest| ensures rest[k] != Cell(0, 1) {
      assert rest[k] == RaceCell(k + 1);
    }
  }

  /** The sequential engine turns (0, 1) white: it holds 100 plus 31 from
      the 100 of error above it. */
  lemma RaceSequentialOutput(h: nat)
    requires h >= 2
    ensures DitherSt(RaceInput(h), 1, h).output[1][0] == White
  {
    var input := RaceInput(h);
    assert Acc(input, 1, h, Cell(0, 0)) == 100;
    KernelExamples();
    assert Acc(input, 1, h, Cell(0, 1)) == 131;
  }

  /** The race on any one-column grid at least two cells high: the race
      order (an execution of the wait rule as written for every worker
      count above one, by `RaceOrderIsExecution`) leaves (0, 1) black where
      the sequential engine makes it white. */
  lemma WidthOneRace(h: nat)
    requires h >= 2
    ensures Run(Init(RaceInput(h), 1, h), 1, h, RaceOrder(h)).output[1][0] == Black
    ensures DitherSt(RaceInput(h), 1, h).output[1][0] == White
    ensures Run(Init(RaceInput(h), 1, h), 1, h, RaceOrder(h)) != DitherSt(RaceInput(h), 1, h)
  {
    RaceRunOutput(h);
    RaceSequentialOutput(h);
  }

  /** The corrected rule makes (0, 1) wait for (0, 0), which rules that
      order out. */
  lemma CorrectedRuleForbidsRace(h: nat, n: nat)
    requires h >= 2 && n >= 2
    ensures !IsExecution(Corrected, 1, h, n, RaceOrder(h))
  {
    assert WaitsFor(Corrected, 1, RaceOrder(h)[0], RaceOrder(h)[1]);
  }
}
