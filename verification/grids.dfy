/**
 Two-dimensional grids indexed `[y][x]` (row, then column) as the C code
 indexes its `int**` and `unsigned char**` buffers, and the cell orders the
 engines walk them in.
 */
module Grids {

  /** An 8-bit luminance sample (`unsigned char`). */
  type Byte = b: int | 0 <= b < 256

  type Grid = seq<seq<int>>

  datatype Cell = Cell(x: nat, y: nat)

  /** `g` has `h` rows of `w` entries each. */
  predicate IsGrid(g: Grid, w: nat, h: nat) {
    |g| == h && forall j :: 0 <= j < h ==> |g[j]| == w
  }

  predicate InBounds(w: nat, h: nat, c: Cell) {
    c.x < w && c.y < h
  }

  /** The grid of the given shape holding `v` everywhere. */
  function Filled(w: nat, h: nat, v: int): (g: Grid)
    ensures IsGrid(g, w, h)
    ensures forall j, i :: 0 <= j < h && 0 <= i < w ==> g[j][i] == v
  {
    seq(h, _ => seq(w, _ => v))
  }

  /** `g` with `delta` added to the entry at `c`. */
  function AddAt(g: Grid, w: nat, h: nat, c: Cell, delta: int): (r: Grid)
    requires IsGrid(g, w, h) && InBounds(w, h, c)
    ensures IsGrid(r, w, h)
    ensures forall j, i :: 0 <= j < h && 0 <= i < w ==>
              r[j][i] == g[j][i] + (if i == c.x && j == c.y then delta else 0)
  {
    g[c.y := g[c.y][c.x := g[c.y][c.x] + delta]]
  }

  /** `g` with the entry at `c` replaced by `v`. */
  function SetAt(g: Grid, w: nat, h: nat, c: Cell, v: int): (r: Grid)
    requires IsGrid(g, w, h) && InBounds(w, h, c)
    ensures IsGrid(r, w, h)
    ensures forall j, i :: 0 <= j < h && 0 <= i < w ==>
              r[j][i] == (if i == c.x && j == c.y then v else g[j][i])
  {
    g[c.y := g[c.y][c.x := v]]
  }

  /** Two grids of one shape that agree entry by entry are equal. */
  lemma GridExt(a: Grid, b: Grid, w: nat, h: nat)
    requires IsGrid(a, w, h) && IsGrid(b, w, h)
    requires forall j, i :: 0 <= j < h && 0 <= i < w ==> a[j][i] == b[j][i]
    ensures a == b
  {
    forall j | 0 <= j < h
      ensures a[j] == b[j]
    {
      assert forall i :: 0 <= i < w ==> a[j][i] == b[j][i];
    }
  }

  /** The anti-diagonal a cell lies on. */
  function Diag(c: Cell): nat {
    c.x + c.y
  }

  /** Row-major order: `y` outer, `x` inner, both ascending. */
  predicate RowMajorLess(a: Cell, b: Cell) {
    a.y < b.y || (a.y == b.y && a.x < b.x)
  }

  /** Wavefront order: ascending anti-diagonal, then ascending `y`. */
  predicate WavefrontLess(a: Cell, b: Cell) {
    Diag(a) < Diag(b) || (Diag(a) == Diag(b) && a.y < b.y)
  }

  /** An order of cells that visits no cell twice. */
  predicate NoDup(order: seq<Cell>) {
    forall i, j :: 0 <= i < j < |order| ==> order[i] != order[j]
  }

  /** `order` visits every cell of the `w` by `h` grid exactly once and
      nothing outside it. */
  ghost predicate CoversGrid(w: nat, h: nat, order: seq<Cell>) {
    && (forall c :: InBounds(w, h, c) ==> c in order)
    && (forall k :: 0 <= k < |order| ==> InBounds(w, h, order[k]))
    && NoDup(order)
  }

  /** A non-empty order is its longest proper prefix plus its last cell. */
  lemma SplitLast(order: seq<Cell>)
    requires |order| > 0
    ensures order[..|order| - 1] + [order[|order| - 1]] == order
  {
  }

  /** The index of `c` in an order that contains it. */
  function Pos(order: seq<Cell>, c: Cell): (k: nat)
    requires c in order
    ensures k < |order| && order[k] == c
    ensures forall i :: 0 <= i < k ==> order[i] != c
  {
    if order[0] == c then 0 else 1 + Pos(order[1..], c)
  }
}
