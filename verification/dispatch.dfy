/**
 The engine choice in `main` of thread.c: the sequential engine for one
 thread or for images under 10000 pixels, the wavefront engine otherwise.
 */
module Dispatch {
  import opened Grids
  import opened Kernel
  import opened Reference
  import opened Sequential
  import opened Wavefront

  /** Images with fewer pixels than this are always dithered sequentially. */
  const SmallImagePixels: nat := 10000

  /** `main` runs the wavefront engine exactly when more than one thread is
      requested and the image has at least 10000 pixels. */
  predicate UsesWavefront(threads: int, w: nat, h: nat) {
    !(threads <= 1 || Pixels(w, h) < SmallImagePixels)
  }

  /** `height * width`, the pixel count `main` compares. */
  function Pixels(w: nat, h: nat): nat {
    h * w
  }

  /** The dithered image `main` writes. The wavefront engine's outcome is
      the execution `order` the scheduler happens to produce under the
      wait rule as written. The sequential path, and the wavefront path on
      images at least two pixels wide, give the reference output; on a
      one-column image the wavefront path can differ
      (`TallColumnMisdithered`). */
  function DitherMain(input: Grid, w: nat, h: nat, threads: int, order: seq<Cell>): (out: Grid)
    requires IsGrid(input, w, h)
    requires UsesWavefront(threads, w, h) ==> IsExecution(AsWritten, w, h, threads as nat, order)
    ensures UsesWavefront(threads, w, h) ==> out == Run(Init(input, w, h), w, h, order).output
    ensures !UsesWavefront(threads, w, h) || w >= 2 ==> out == DitherSt(input, w, h).output
    ensures !UsesWavefront(threads, w, h) || w >= 2 ==>
              forall j, i :: 0 <= j < h && 0 <= i < w ==> out[j][i] == Quantize(Acc(input, w, h, Cell(i, j)))
  {
    if !UsesWavefront(threads, w, h) then
      DitherSt(input, w, h).output
    else
      var out := Run(Init(input, w, h), w, h, order).output;
      if w >= 2 then
        ExecutionsMatchSequential(AsWritten, input, w, h, threads as nat, order);
        out
      else
        out
  }

  /** `main` with the wavefront engine under the corrected wait rule:
      whichever engine runs, the result is the reference output. */
  function DitherMainCorrected(input: Grid, w: nat, h: nat, threads: int, order: seq<Cell>): (out: Grid)
    requires IsGrid(input, w, h)
    requires UsesWavefront(threads, w, h) ==> IsExecution(Corrected, w, h, threads as nat, order)
    ensures out == DitherSt(input, w, h).output
    ensures forall j, i :: 0 <= j < h && 0 <= i < w ==> out[j][i] == Quantize(Acc(input, w, h, Cell(i, j)))
  {
    if !UsesWavefront(threads, w, h) then
      DitherSt(input, w, h).output
    else
      ExecutionsMatchSequential(Corrected, input, w, h, threads as nat, order);
      Run(Init(input, w, h), w, h, order).output
  }

  /** A one-column image of 10000 rows or more with two or more threads
      reaches the wavefront engine, and with it the race of the wait rule
      as written. */
  lemma TallColumnReachesWavefront(threads: int, h: nat)
    requires threads >= 2 && h >= SmallImagePixels
    ensures UsesWavefront(threads, 1, h)
    ensures IsExecution(AsWritten, 1, h, threads as nat, RaceOrder(h))
    ensures Run(Init(RaceInput(h), 1, h), 1, h, RaceOrder(h)) != DitherSt(RaceInput(h), 1, h)
  {
    assert Pixels(1, h) == h;
    RaceOrderIsExecution(h, threads as nat);
    WidthOneRace(h);
  }

  /** The race reaches `main`'s output: on an all-100 column of 10000 rows
      or more with two or more threads, the execution that runs (0, 1)
      before (0, 0) writes 0 at row 1 where the sequential engine writes
      255. */
  lemma TallColumnMisdithered(threads: int, h: nat)
    requires threads >= 2 && h >= SmallImagePixels
    ensures IsExecution(AsWritten, 1, h, threads as nat, RaceOrder(h))
    ensures DitherMain(RaceInput(h), 1, h, threads, RaceOrder(h))[1][0] == Black
    ensures DitherSt(RaceInput(h), 1, h).output[1][0] == White
  {
    TallColumnReachesWavefront(threads, h);
    WidthOneRace(h);
  }
}
