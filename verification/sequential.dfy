/**
 The sequential engine: `dither_image` in error_diffusion.c and
 `dither_image_st` in thread.c, which run the same loop body over the
 cells in row-major order (`y` outer, `x` inner, both ascending).
 */
module Sequential {
  import opened Grids
  import opened Kernel
  import opened Reference

  /** The first `k` cells of row `y`, left to right. */
  function RowPrefix(y: nat, k: nat): (cells: seq<Cell>)
    ensures |cells| == k
    ensures forall i :: 0 <= i < k ==> cells[i] == Cell(i, y)
  {
    if k == 0 then [] else RowPrefix(y, k - 1) + [Cell(k - 1, y)]
  }

  /** The cells of the first `h` rows of a `w`-wide grid, in the order the
      nested loops visit them. */
  function RowMajor(w: nat, h: nat): (order: seq<Cell>)
    ensures forall c :: c in order <==> InBounds(w, h, c)
    ensures forall k :: 0 <= k < |order| ==> InBounds(w, h, order[k])
    ensures forall i, j :: 0 <= i < j < |order| ==> RowMajorLess(order[i], order[j])
  {
    if h == 0 then []
    else
      var prev := RowMajor(w, h - 1);
      var row := RowPrefix(h - 1, w);
      assert forall c :: c in row <==> c.y == h - 1 && c.x < w by {
        forall c: Cell | c in row ensures c.y == h - 1 && c.x < w {
          var i :| 0 <= i < |row| && row[i] == c;
        }
        forall c: Cell | c.y == h - 1 && c.x < w ensures c in row {
          assert row[c.x] == c;
        }
      }
      var order := prev + row;
      forall i, j | 0 <= i < j < |order|
        ensures RowMajorLess(order[i], order[j])
      {
        if i < |prev| <= j {
          assert order[i] in prev;
        }
      }
      order
  }

  /** Row-major order visits every cell exactly once, each after all of
      its contributors. */
  lemma RowMajorIsValidOrder(w: nat, h: nat)
    ensures CoversGrid(w, h, RowMajor(w, h))
    ensures ContributorsFirst(w, RowMajor(w, h))
  {
    var order := RowMajor(w, h);
    assert forall k :: 0 <= k < |order| ==> order[k] in order;
    forall c, t | Weight(c, t) != 0
      ensures RowMajorLess(c, t)
    {
      TargetsFollowInRowMajor(c, t);
    }
    SortedOrderPutsContributorsFirst(w, h, order, RowMajorLess);
  }

  /** `dither_image_st`: the kernel folded over row-major order. Its final
      state is the reference one: every output cell is the threshold of
      the cell's fully accumulated value. */
  function DitherSt(input: Grid, w: nat, h: nat): (s: Dither)
    requires IsGrid(input, w, h)
    ensures IsReference(s, input, w, h)
  {
    RowMajorIsValidOrder(w, h);
    CompleteRunIsReference(input, w, h, RowMajor(w, h));
    Run(Init(input, w, h), w, h, RowMajor(w, h))
  }

  /** One pass of the inner loop of `dither_image`: the kernel at every
      cell of row `y`, left to right, starting from state `s`. */
  method DitherRow(s: Dither, w: nat, h: nat, y: nat) returns (s': Dither)
    requires Valid(s, w, h) && y < h
    ensures s' == Run(s, w, h, RowPrefix(y, w))
  {
    s' := s;
    var x := 0;
    while x < w
      invariant x <= w
      invariant s' == Run(s, w, h, RowPrefix(y, x))
    {
      RunSnoc(s, w, h, RowPrefix(y, x), Cell(x, y));
      s' := Step(s', w, h, Cell(x, y));
      x := x + 1;
    }
  }

  /** `dither_image`: the same loops written imperatively. The output is
      the reference output, it is 0 or 255 everywhere, and it is the
      output of `dither_image_st` on the same input. */
  method DitherImage(input: seq<seq<Byte>>, w: nat, h: nat) returns (output: Grid)
    requires IsGrid(input, w, h)
    ensures IsGrid(output, w, h)
    ensures output == DitherSt(input, w, h).output
    ensures forall j, i :: 0 <= j < h && 0 <= i < w ==>
              output[j][i] == Quantize(Acc(input, w, h, Cell(i, j)))
    ensures forall j, i :: 0 <= j < h && 0 <= i < w ==>
              output[j][i] == White || output[j][i] == Black
  {
    var init := Init(input, w, h);
    var s := init;
    var y := 0;
    while y < h
      invariant y <= h
      invariant s == Run(init, w, h, RowMajor(w, y))
    {
      RunAppend(init, w, h, RowMajor(w, y), RowPrefix(y, w));
      s := DitherRow(s, w, h, y);
      y := y + 1;
    }
    var r := DitherSt(input, w, h);
    assert s == r;
    output := s.output;
  }
}
