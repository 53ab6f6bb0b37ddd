/**
 An order-independent reference for Floyd–Steinberg error diffusion. The
 C engines PUSH each cell's error forward; here the value a cell holds
 when it is read is PULLED from its four contributors: its own input
 value plus the floored shares of the errors of the cells to its left
 (7), up-right (3), up (5) and up-left (1).

 The central fact (`RunMatches`): folding `Kernel.Step` over ANY order of
 distinct cells in which every cell comes after its contributors leaves
 exactly the reference values behind. Both the row-major engine and the
 wavefront engine are instances.
 */
module Reference {
  import opened Grids
  import opened Kernel

  /** The accumulator value of cell `c` at the moment it is read, once
      every contributor has pushed its error. */
  function Acc(input: Grid, w: nat, h: nat, c: Cell): int
    requires IsGrid(input, w, h) && InBounds(w, h, c)
    decreases c.y, c.x
  {
    input[c.y][c.x]
    + (if c.x > 0 then Share(ErrorOf(Acc(input, w, h, Cell(c.x - 1, c.y))), 7) else 0)
    + (if c.y > 0 && c.x + 1 < w then Share(ErrorOf(Acc(input, w, h, Cell(c.x + 1, c.y - 1))), 3) else 0)
    + (if c.y > 0 then Share(ErrorOf(Acc(input, w, h, Cell(c.x, c.y - 1))), 5) else 0)
    + (if c.y > 0 && c.x > 0 then Share(ErrorOf(Acc(input, w, h, Cell(c.x - 1, c.y - 1))), 1) else 0)
  }

  /** The accumulator value of `c` once only the contributors listed in
      `done` have pushed their error. */
  function Partial(input: Grid, w: nat, h: nat, done: seq<Cell>, c: Cell): int
    requires IsGrid(input, w, h) && InBounds(w, h, c)
  {
    input[c.y][c.x]
    + (if c.x > 0 && Cell(c.x - 1, c.y) in done
       then Share(ErrorOf(Acc(input, w, h, Cell(c.x - 1, c.y))), 7) else 0)
    + (if c.y > 0 && c.x + 1 < w && Cell(c.x + 1, c.y - 1) in done
       then Share(ErrorOf(Acc(input, w, h, Cell(c.x + 1, c.y - 1))), 3) else 0)
    + (if c.y > 0 && Cell(c.x, c.y - 1) in done
       then Share(ErrorOf(Acc(input, w, h, Cell(c.x, c.y - 1))), 5) else 0)
    + (if c.y > 0 && c.x > 0 && Cell(c.x - 1, c.y - 1) in done
       then Share(ErrorOf(Acc(input, w, h, Cell(c.x - 1, c.y - 1))), 1) else 0)
  }

  /** Every in-bounds contributor of `c` is in `done`. */
  predicate ContributorsIn(w: nat, c: Cell, done: seq<Cell>) {
    && (c.x > 0 ==> Cell(c.x - 1, c.y) in done)
    && (c.y > 0 && c.x + 1 < w ==> Cell(c.x + 1, c.y - 1) in done)
    && (c.y > 0 ==> Cell(c.x, c.y - 1) in done)
    && (c.y > 0 && c.x > 0 ==> Cell(c.x - 1, c.y - 1) in done)
  }

  /** Each cell of `order` comes after all of its contributors. */
  predicate ContributorsFirst(w: nat, order: seq<Cell>) {
    forall k :: 0 <= k < |order| ==> ContributorsIn(w, order[k], order[..k])
  }

  /** `s` is the state reached once exactly the cells of `done` have been
      processed: each accumulator holds its input plus the shares of its
      processed contributors, each processed cell holds its reference
      output, and every other output cell is untouched. */
  ghost predicate Matches(s: Dither, input: Grid, w: nat, h: nat, done: seq<Cell>)
    requires IsGrid(input, w, h)
  {
    && Valid(s, w, h)
    && (forall j, i :: 0 <= j < h && 0 <= i < w ==>
          s.work[j][i] == Partial(input, w, h, done, Cell(i, j)))
    && (forall j, i :: 0 <= j < h && 0 <= i < w ==>
          s.output[j][i] == if Cell(i, j) in done then Quantize(Acc(input, w, h, Cell(i, j))) else Black)
  }

  /** The final state of a run: every accumulator holds its reference value
      and every output cell is that value thresholded. */
  ghost predicate IsReference(s: Dither, input: Grid, w: nat, h: nat)
    requires IsGrid(input, w, h)
  {
    && Valid(s, w, h)
    && (forall j, i :: 0 <= j < h && 0 <= i < w ==> s.work[j][i] == Acc(input, w, h, Cell(i, j)))
    && (forall j, i :: 0 <= j < h && 0 <= i < w ==> s.output[j][i] == Quantize(Acc(input, w, h, Cell(i, j))))
  }

  /** With all of its contributors done, a cell holds its reference value. */
  lemma PartialComplete(input: Grid, w: nat, h: nat, done: seq<Cell>, c: Cell)
    requires IsGrid(input, w, h) && InBounds(w, h, c)
    requires ContributorsIn(w, c, done)
    ensures Partial(input, w, h, done, c) == Acc(input, w, h, c)
  {
  }

  /** Processing one more cell `c` adds exactly its weighted error share to
      the partial sum of every cell. */
  lemma {:induction false} PartialExtend(input: Grid, w: nat, h: nat, done: seq<Cell>, c: Cell, t: Cell)
    requires IsGrid(input, w, h) && InBounds(w, h, c) && InBounds(w, h, t)
    requires c !in done
    ensures Partial(input, w, h, done + [c], t)
            == Partial(input, w, h, done, t) + Share(ErrorOf(Acc(input, w, h, c)), Weight(c, t))
  {
    var e := ErrorOf(Acc(input, w, h, c));
    var k := Weight(c, t);
    if t.x > 0 {
      InSnoc(done, c, Cell(t.x - 1, t.y));
    }
    if t.y > 0 {
      InSnoc(done, c, Cell(t.x + 1, t.y - 1));
      InSnoc(done, c, Cell(t.x, t.y - 1));
      if t.x > 0 {
        InSnoc(done, c, Cell(t.x - 1, t.y - 1));
      }
    }
    if k == 0 {
      ShareOfNothing(e);
      assert Partial(input, w, h, done + [c], t) == Partial(input, w, h, done, t);
    } else if k == 7 {
      assert c == Cell(t.x - 1, t.y);
    } else if k == 3 {
      assert c == Cell(t.x + 1, t.y - 1);
    } else if k == 5 {
      assert c == Cell(t.x, t.y - 1);
    } else {
      assert c == Cell(t.x - 1, t.y - 1);
    }
  }

  /** Membership in a sequence extended by one element. */
  lemma InSnoc(done: seq<Cell>, c: Cell, d: Cell)
    ensures d in done + [c] <==> d in done || d == c
  {
  }

  /** The kernel step carries the run invariant from `done` to
      `done + [c]`, provided `c` is new and its contributors are done. */
  lemma {:induction false} StepMatches(s: Dither, input: Grid, w: nat, h: nat, done: seq<Cell>, c: Cell)
    requires IsGrid(input, w, h) && InBounds(w, h, c)
    requires Matches(s, input, w, h, done)
    requires c !in done && ContributorsIn(w, c, done)
    ensures Matches(Step(s, w, h, c), input, w, h, done + [c])
  {
    var r := Step(s, w, h, c);
    PartialComplete(input, w, h, done, c);
    assert s.work[c.y][c.x] == Acc(input, w, h, c);
    forall j, i | 0 <= j < h && 0 <= i < w
      ensures r.work[j][i] == Partial(input, w, h, done + [c], Cell(i, j))
    {
      PartialExtend(input, w, h, done, c, Cell(i, j));
    }
    forall j, i | 0 <= j < h && 0 <= i < w
      ensures r.output[j][i]
              == if Cell(i, j) in done + [c] then Quantize(Acc(input, w, h, Cell(i, j))) else Black
    {
      assert Cell(i, j) in done + [c] <==> Cell(i, j) in done || Cell(i, j) == c;
    }
  }

  /** Before any cell is processed the state is the initial one. */
  lemma InitMatches(input: Grid, w: nat, h: nat)
    requires IsGrid(input, w, h)
    ensures Matches(Init(input, w, h), input, w, h, [])
  {
  }

  lemma PrefixKeepsContributorsFirst(w: nat, order: seq<Cell>, n: nat)
    requires n <= |order| && ContributorsFirst(w, order)
    ensures ContributorsFirst(w, order[..n])
  {
    forall k | 0 <= k < n
      ensures ContributorsIn(w, order[..n][k], order[..n][..k])
    {
      assert order[..n][..k] == order[..k];
    }
  }

  /** Folding the kernel over any duplicate-free order whose cells come
      after their contributors yields the reference values on the visited
      cells, and input-plus-received-shares on the others. */
  lemma {:induction false} RunMatches(input: Grid, w: nat, h: nat, order: seq<Cell>)
    requires IsGrid(input, w, h)
    requires forall k :: 0 <= k < |order| ==> InBounds(w, h, order[k])
    requires NoDup(order) && ContributorsFirst(w, order)
    ensures Matches(Run(Init(input, w, h), w, h, order), input, w, h, order)
    decreases |order|
  {
    if |order| == 0 {
      InitMatches(input, w, h);
    } else {
      var n := |order| - 1;
      var prefix := order[..n];
      PrefixKeepsContributorsFirst(w, order, n);
      RunMatches(input, w, h, prefix);
      var s := Run(Init(input, w, h), w, h, prefix);
      assert order[n] !in prefix;
      assert ContributorsIn(w, order[n], prefix);
      StepMatches(s, input, w, h, prefix, order[n]);
      SplitLast(order);
    }
  }

  /** A run over an order that covers the grid and puts contributors first
      ends in the reference state. */
  lemma CompleteRunIsReference(input: Grid, w: nat, h: nat, order: seq<Cell>)
    requires IsGrid(input, w, h)
    requires CoversGrid(w, h, order) && ContributorsFirst(w, order)
    ensures IsReference(Run(Init(input, w, h), w, h, order), input, w, h)
  {
    RunMatches(input, w, h, order);
    CompleteMatchIsReference(Run(Init(input, w, h), w, h, order), input, w, h, order);
  }

  /** Once every cell of the grid is done, the run invariant is the
      reference state. */
  lemma CompleteMatchIsReference(s: Dither, input: Grid, w: nat, h: nat, order: seq<Cell>)
    requires IsGrid(input, w, h)
    requires CoversGrid(w, h, order) && Matches(s, input, w, h, order)
    ensures IsReference(s, input, w, h)
  {
    forall j, i | 0 <= j < h && 0 <= i < w
      ensures s.work[j][i] == Acc(input, w, h, Cell(i, j))
      ensures s.output[j][i] == Quantize(Acc(input, w, h, Cell(i, j)))
    {
      var c := Cell(i, j);
      assert InBounds(w, h, c);
      CoverHasContributors(w, h, order, c);
      PartialComplete(input, w, h, order, c);
    }
  }

  /** An order covering the grid contains every contributor of every cell. */
  lemma CoverHasContributors(w: nat, h: nat, order: seq<Cell>, c: Cell)
    requires CoversGrid(w, h, order) && InBounds(w, h, c)
    ensures ContributorsIn(w, c, order)
  {
    if c.x > 0 {
      assert InBounds(w, h, Cell(c.x - 1, c.y));
    }
    if c.y > 0 && c.x + 1 < w {
      assert InBounds(w, h, Cell(c.x + 1, c.y - 1));
    }
    if c.y > 0 {
      assert InBounds(w, h, Cell(c.x, c.y - 1));
    }
    if c.y > 0 && c.x > 0 {
      assert InBounds(w, h, Cell(c.x - 1, c.y - 1));
    }
  }

  /** The reference state is unique: two states that both hold it are
      equal. */
  lemma ReferenceUnique(s1: Dither, s2: Dither, input: Grid, w: nat, h: nat)
    requires IsGrid(input, w, h)
    requires IsReference(s1, input, w, h) && IsReference(s2, input, w, h)
    ensures s1 == s2
  {
    GridExt(s1.work, s2.work, w, h);
    GridExt(s1.output, s2.output, w, h);
  }

  /** Every output cell of the reference state is 0 or 255. */
  lemma ReferenceOutputIsBinary(s: Dither, input: Grid, w: nat, h: nat)
    requires IsGrid(input, w, h) && IsReference(s, input, w, h)
    ensures forall j, i :: 0 <= j < h && 0 <= i < w ==> s.output[j][i] == White || s.output[j][i] == Black
  {
  }

  /** If two orders both cover the grid with contributors first, the runs
      over them end in the same state. */
  lemma OrdersAgree(input: Grid, w: nat, h: nat, a: seq<Cell>, b: seq<Cell>)
    requires IsGrid(input, w, h)
    requires CoversGrid(w, h, a) && ContributorsFirst(w, a)
    requires CoversGrid(w, h, b) && ContributorsFirst(w, b)
    ensures Run(Init(input, w, h), w, h, a) == Run(Init(input, w, h), w, h, b)
  {
    CompleteRunIsReference(input, w, h, a);
    CompleteRunIsReference(input, w, h, b);
    ReferenceUnique(Run(Init(input, w, h), w, h, a), Run(Init(input, w, h), w, h, b), input, w, h);
  }

  /** A strict order `less` under which every kernel target follows its
      source; an order sorted by it that covers the grid puts every cell
      after its contributors. */
  lemma {:induction false} SortedOrderPutsContributorsFirst(w: nat, h: nat, order: seq<Cell>, less: (Cell, Cell) -> bool)
    requires forall a, b :: less(a, b) ==> !less(b, a)
    requires forall c, t :: Weight(c, t) != 0 ==> less(c, t)
    requires forall i, j :: 0 <= i < j < |order| ==> less(order[i], order[j])
    requires CoversGrid(w, h, order)
    ensures ContributorsFirst(w, order)
  {
    forall k | 0 <= k < |order|
      ensures ContributorsIn(w, order[k], order[..k])
    {
      var c := order[k];
      assert InBounds(w, h, c);
      forall e | InBounds(w, h, e) && Weight(e, c) != 0
        ensures e in order[..k]
      {
        var p := Pos(order, e);
        assert less(e, c);
        assert p < k;
        assert order[..k][p] == e;
      }
      if c.x > 0 {
        assert Weight(Cell(c.x - 1, c.y), c) == 7;
      }
      if c.y > 0 && c.x + 1 < w {
        assert Weight(Cell(c.x + 1, c.y - 1), c) == 3;
      }
      if c.y > 0 {
        assert Weight(Cell(c.x, c.y - 1), c) == 5;
      }
      if c.y > 0 && c.x > 0 {
        assert Weight(Cell(c.x - 1, c.y - 1), c) == 1;
      }
    }
  }
}
