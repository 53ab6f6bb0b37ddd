/**
 The Floyd–Steinberg kernel shared by every engine: threshold one
 accumulator cell at 128, record the binary output, and push the
 quantisation error to the four not-yet-visited neighbours with weights
 7/16, 3/16, 5/16 and 1/16, each share rounded toward negative infinity.
 An engine is a fold of this step over some order of the cells.
 */
module Kernel {
  import opened FloorDivision
  import opened Grids

  const Threshold: int := 128
  const White: int := 255
  const Black: int := 0
  const Sixteenths: int := 16

  /** The working state of one dithering run: the error accumulator
      (`work`) and the output grid. */
  datatype Dither = Dither(work: Grid, output: Grid)

  predicate Valid(s: Dither, w: nat, h: nat) {
    IsGrid(s.work, w, h) && IsGrid(s.output, w, h)
  }

  /** The accumulator starts as a copy of the input; the output buffer's
      prior contents are modelled as zeros. */
  function Init(input: Grid, w: nat, h: nat): (s: Dither)
    requires IsGrid(input, w, h)
    ensures Valid(s, w, h) && s.work == input
  {
    Dither(input, Filled(w, h, Black))
  }

  /** The output value of a cell whose accumulator holds `v`: white
      exactly when `v` exceeds the threshold, black otherwise. */
  function Quantize(v: int): (q: int)
    ensures q == White || q == Black
    ensures q == White <==> v > Threshold
  {
    if v > Threshold then White else Black
  }

  /** The quantisation error of an accumulator value. */
  function ErrorOf(v: int): int {
    v - Quantize(v)
  }

  /** The share `floor(err * weight / 16)` of an error. */
  function Share(err: int, weight: int): int {
    FloorDivide(err * weight, Sixteenths)
  }

  /** The weight (in sixteenths) with which the error of cell `c` reaches
      cell `t`: 7 to the right, 3 down-left, 5 down, 1 down-right, and
      nothing anywhere else. */
  function Weight(c: Cell, t: Cell): int {
    if t.y == c.y && t.x == c.x + 1 then 7
    else if t.y == c.y + 1 && t.x + 1 == c.x then 3
    else if t.y == c.y + 1 && t.x == c.x then 5
    else if t.y == c.y + 1 && t.x == c.x + 1 then 1
    else 0
  }

  lemma ShareOfNothing(err: int)
    ensures Share(err, 0) == 0
  {
  }

  /** The error is the accumulator less 255 when the pixel turns white and
      the accumulator itself when it turns black; for a value in 0..255 it
      lies in -126..128. */
  lemma ErrorOfRange(v: int)
    ensures v > Threshold ==> ErrorOf(v) == v - White
    ensures v <= Threshold ==> ErrorOf(v) == v
    ensures Black <= v <= White ==> -126 <= ErrorOf(v) <= Threshold
  {
  }

  /** A share is `err * weight / 16` rounded toward negative infinity, for
      negative errors too, where C's `/` would round toward zero. */
  lemma ShareIsFloor(err: int, weight: int)
    ensures Share(err, weight) == (err * weight) / Sixteenths
    ensures Share(err, weight) * Sixteenths <= err * weight < Share(err, weight) * Sixteenths + Sixteenths
  {
    FloorDivideIsFloor(err * weight, Sixteenths);
  }

  /** The four guarded error pushes of the kernel at `c`: every cell of
      the accumulator receives its weighted share of `err`, which is
      nothing outside the four neighbours. */
  function Spread(work: Grid, w: nat, h: nat, c: Cell, err: int): (r: Grid)
    requires IsGrid(work, w, h) && InBounds(w, h, c)
    ensures IsGrid(r, w, h)
    ensures forall j, i :: 0 <= j < h && 0 <= i < w ==>
              r[j][i] == work[j][i] + Share(err, Weight(c, Cell(i, j)))
  {
    var x, y := c.x, c.y;
    var w1 := if x + 1 < w then AddAt(work, w, h, Cell(x + 1, y), Share(err, 7)) else work;
    var w2 := if y + 1 < h && x >= 1 then AddAt(w1, w, h, Cell(x - 1, y + 1), Share(err, 3)) else w1;
    var w3 := if y + 1 < h then AddAt(w2, w, h, Cell(x, y + 1), Share(err, 5)) else w2;
    var w4 := if y + 1 < h && x + 1 < w then AddAt(w3, w, h, Cell(x + 1, y + 1), Share(err, 1)) else w3;
    ShareOfNothing(err);
    w4
  }

  /** One application of the kernel at `c`, in the statement order of the
      C loop body: read, threshold, write the output, then the four
      guarded error pushes. */
  function Step(s: Dither, w: nat, h: nat, c: Cell): (r: Dither)
    requires Valid(s, w, h) && InBounds(w, h, c)
    ensures Valid(r, w, h)
    ensures forall j, i :: 0 <= j < h && 0 <= i < w ==>
              r.output[j][i] == if i == c.x && j == c.y then Quantize(s.work[c.y][c.x]) else s.output[j][i]
    ensures forall j, i :: 0 <= j < h && 0 <= i < w ==>
              r.work[j][i] == s.work[j][i] + Share(ErrorOf(s.work[c.y][c.x]), Weight(c, Cell(i, j)))
  {
    var oldPixel := s.work[c.y][c.x];
    var newPixel := Quantize(oldPixel);
    var output := SetAt(s.output, w, h, c, newPixel);
    var err := oldPixel - newPixel;
    Dither(Spread(s.work, w, h, c, err), output)
  }

  /** The engine skeleton: apply `Step` to the cells of `order`, first to
      last. */
  function Run(s: Dither, w: nat, h: nat, order: seq<Cell>): (r: Dither)
    requires Valid(s, w, h)
    requires forall k :: 0 <= k < |order| ==> InBounds(w, h, order[k])
    ensures Valid(r, w, h)
    decreases |order|
  {
    if |order| == 0 then s
    else Step(Run(s, w, h, order[..|order| - 1]), w, h, order[|order| - 1])
  }

  /** Running `a + [c]` is running `a` and then stepping at `c`. */
  lemma RunSnoc(s: Dither, w: nat, h: nat, a: seq<Cell>, c: Cell)
    requires Valid(s, w, h) && InBounds(w, h, c)
    requires forall k :: 0 <= k < |a| ==> InBounds(w, h, a[k])
    ensures forall k :: 0 <= k < |a + [c]| ==> InBounds(w, h, (a + [c])[k])
    ensures Run(s, w, h, a + [c]) == Step(Run(s, w, h, a), w, h, c)
  {
    assert (a + [c])[..|a|] == a;
  }

  /** Running `a + b` is running `a` and then running `b` from there. */
  lemma {:induction false} RunAppend(s: Dither, w: nat, h: nat, a: seq<Cell>, b: seq<Cell>)
    requires Valid(s, w, h)
    requires forall k :: 0 <= k < |a| ==> InBounds(w, h, a[k])
    requires forall k :: 0 <= k < |b| ==> InBounds(w, h, b[k])
    ensures forall k :: 0 <= k < |a + b| ==> InBounds(w, h, (a + b)[k])
    ensures Run(s, w, h, a + b) == Run(Run(s, w, h, a), w, h, b)
    decreases |b|
  {
    if |b| == 0 {
      assert a + b == a;
    } else {
      var init, c := b[..|b| - 1], b[|b| - 1];
      assert b == init + [c];
      assert a + b == (a + init) + [c];
      RunAppend(s, w, h, a, init);
      RunSnoc(s, w, h, a + init, c);
      RunSnoc(Run(s, w, h, a), w, h, init, c);
    }
  }

  /** A run writes the output of a cell only when it visits that cell. */
  lemma {:induction false} RunKeepsUnvisitedOutput(s: Dither, w: nat, h: nat, order: seq<Cell>, c: Cell)
    requires Valid(s, w, h) && InBounds(w, h, c)
    requires forall k :: 0 <= k < |order| ==> InBounds(w, h, order[k])
    requires c !in order
    ensures Run(s, w, h, order).output[c.y][c.x] == s.output[c.y][c.x]
    decreases |order|
  {
    if |order| > 0 {
      var prev := order[..|order| - 1];
      assert order == prev + [order[|order| - 1]];
      RunKeepsUnvisitedOutput(s, w, h, prev, c);
    }
  }

  /** Every in-bounds target of the kernel at `c` comes strictly after `c`
      in row-major order, so the kernel never writes a cell the row-major
      engines have already read. */
  lemma TargetsFollowInRowMajor(c: Cell, t: Cell)
    requires Weight(c, t) != 0
    ensures RowMajorLess(c, t)
  {
  }

  /** The step leaves the accumulator of `c` itself and of every cell before
      it in row-major order untouched. */
  lemma StepKeepsVisitedCells(s: Dither, w: nat, h: nat, c: Cell, t: Cell)
    requires Valid(s, w, h) && InBounds(w, h, c) && InBounds(w, h, t)
    requires !RowMajorLess(c, t)
    ensures Step(s, w, h, c).work[t.y][t.x] == s.work[t.y][t.x]
  {
    if Weight(c, t) != 0 {
      TargetsFollowInRowMajor(c, t);
    }
  }

  /** On a single-row grid only the right-hand neighbour ever receives
      error; the next-row branch is never taken. */
  lemma SingleRowPushesRightOnly(s: Dither, w: nat, c: Cell, i: nat)
    requires Valid(s, w, 1) && InBounds(w, 1, c) && i < w && i != c.x + 1
    ensures Step(s, w, 1, c).work[0][i] == s.work[0][i]
  {
  }

  /** On a 1x1 grid the step propagates nothing. */
  lemma SinglePixelNoPropagation(s: Dither)
    requires Valid(s, 1, 1)
    ensures Step(s, 1, 1, Cell(0, 0)).work == s.work
  {
    var r := Step(s, 1, 1, Cell(0, 0));
    GridExt(r.work, s.work, 1, 1);
  }

  /** Worked kernel values: 100 quantises to 0 with error 100, whose
      shares are 43, 18, 31 and 6; an error of -156 sends -69 (not -68) to
      the right. */
  lemma KernelExamples()
    ensures Quantize(100) == Black && ErrorOf(100) == 100
    ensures Share(100, 7) == 43 && Share(100, 3) == 18
    ensures Share(100, 5) == 31 && Share(100, 1) == 6
    ensures Share(-156, 7) == -69
    ensures Quantize(200) == White && ErrorOf(200) == -55
  {
    FloorDivideExamples();
  }
}
