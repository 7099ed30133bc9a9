/** Mask geometry of sensor/params.py: the zero-ring padding, the
    270-degree rotation, the border erosion `mask_borderer` and the
    `ImageMask` constants derived from the two polygon fills. */
module Params {
  import opened Grids

  // ---------------------------------------------------------------------
  // Padding with one ring of zeros (np.pad(..., [(1, 1), (1, 1)], constant 0))
  // ---------------------------------------------------------------------

  function Pad(g: Grid, cols: nat): (e: Grid)
    requires IsGrid(g, |g|, cols)
    ensures IsGrid(e, |g| + 2, cols + 2)
    ensures forall r, c :: 0 <= r < |g| && 0 <= c < cols ==> e[r + 1][c + 1] == g[r][c]
    ensures forall c :: 0 <= c < cols + 2 ==> e[0][c] == 0 && e[|g| + 1][c] == 0
    ensures forall r :: 0 <= r < |g| + 2 ==> e[r][0] == 0 && e[r][cols + 1] == 0
  {
    seq(|g| + 2, r requires 0 <= r < |g| + 2 =>
      seq(cols + 2, c requires 0 <= c < cols + 2 =>
        if 1 <= r <= |g| && 1 <= c <= cols then g[r - 1][c - 1] else 0))
  }

  /** Drops the outer ring: the inverse of Pad. */
  function Crop(e: Grid, cols: nat): (g: Grid)
    requires |e| >= 2 && IsGrid(e, |e|, cols + 2)
    ensures IsGrid(g, |e| - 2, cols)
  {
    seq(|e| - 2, r requires 0 <= r < |e| - 2 =>
      seq(cols, c requires 0 <= c < cols => e[r + 1][c + 1]))
  }

  lemma PadCropRoundTrip(g: Grid, cols: nat)
    requires IsGrid(g, |g|, cols)
    ensures Crop(Pad(g, cols), cols) == g
  {
    var back := Crop(Pad(g, cols), cols);
    forall r | 0 <= r < |g| ensures back[r] == g[r] {
      assert |back[r]| == |g[r]|;
    }
  }

  /** Padding never removes or adds a non-zero cell: the padded grid holds
      exactly the non-zero values of the original, shifted by one. */
  lemma PadKeepsNonZeros(g: Grid, cols: nat, r: int, c: int)
    requires IsGrid(g, |g|, cols)
    requires 0 <= r < |g| + 2 && 0 <= c < cols + 2
    requires Pad(g, cols)[r][c] != 0
    ensures 1 <= r <= |g| && 1 <= c <= cols && g[r - 1][c - 1] == Pad(g, cols)[r][c]
  {
  }

  // ---------------------------------------------------------------------
  // np.rot90(g, 3): a quarter turn clockwise
  // ---------------------------------------------------------------------

  /** `rot90(g, 3)` of a rows x cols grid: a cols x rows grid with
      out[i][j] == g[rows - 1 - j][i]. */
  function Rot270(g: Grid, cols: nat): (o: Grid)
    requires IsGrid(g, |g|, cols)
    ensures IsGrid(o, cols, |g|)
  {
    seq(cols, i requires 0 <= i < cols =>
      seq(|g|, j requires 0 <= j < |g| => g[|g| - 1 - j][i]))
  }

  /** Two quarter turns are a half turn. */
  lemma {:induction false} Rot270Twice(g: Grid, cols: nat)
    requires IsGrid(g, |g|, cols)
    ensures IsGrid(Rot270(Rot270(g, cols), |g|), |g|, cols)
    ensures forall r, c :: 0 <= r < |g| && 0 <= c < cols ==>
              Rot270(Rot270(g, cols), |g|)[r][c] == g[|g| - 1 - r][cols - 1 - c]
  {
    var o := Rot270(g, cols);
    var o2 := Rot270(o, |g|);
    forall r, c | 0 <= r < |g| && 0 <= c < cols
      ensures o2[r][c] == g[|g| - 1 - r][cols - 1 - c]
    {
      assert o2[r][c] == o[cols - 1 - c][r];
    }
  }

  /** The rotation only relabels cells: four quarter turns are the identity. */
  lemma {:induction false} Rot270FourTimes(g: Grid, cols: nat)
    requires IsGrid(g, |g|, cols)
    ensures Rot270(Rot270(Rot270(Rot270(g, cols), |g|), cols), |g|) == g
  {
    Rot270Twice(g, cols);
    var h := Rot270(Rot270(g, cols), |g|);
    Rot270Twice(h, cols);
    var back := Rot270(Rot270(h, cols), |g|);
    forall r | 0 <= r < |g| ensures back[r] == g[r] {
      assert |back[r]| == |g[r]|;
      forall c | 0 <= c < cols ensures back[r][c] == g[r][c] {
        assert back[r][c] == h[|g| - 1 - r][cols - 1 - c];
      }
    }
  }

  // ---------------------------------------------------------------------
  // mask_borderer: one pass of border erosion
  // ---------------------------------------------------------------------

  /** (p, q) is visited by the loops of mask_borderer (rows 1..n-2, columns 1..m-2). */
  predicate Interior(n: int, m: int, p: int, q: int)
  {
    1 <= p <= n - 2 && 1 <= q <= m - 2
  }

  /** (p, q) is a visited cell on the first or last visited row or column. */
  predicate OnInnerRing(n: int, m: int, p: int, q: int)
  {
    Interior(n, m, p, q) && (p == 1 || q == 1 || p == n - 2 || q == m - 2)
  }

  /** Visiting (p, q) writes 0 into output cell (x, y): either the input is 0
      at (p, q) and (x, y) is in its 3 x 3 neighbourhood, or (x, y) == (p, q)
      lies on the inner ring. */
  predicate Clears(mask: Grid, n: nat, m: nat, p: int, q: int, x: int, y: int)
    requires IsGrid(mask, n, m)
  {
    Interior(n, m, p, q) && -1 <= p - x <= 1 && -1 <= q - y <= 1 &&
    (mask[p][q] == 0 || (p == x && q == y && OnInnerRing(n, m, p, q)))
  }

  /** Row-major visiting order: (p, q) comes before (i, j). */
  predicate Before(p: int, q: int, i: int, j: int)
  {
    p < i || (p == i && q < j)
  }

  /** Some cell visited before (i, j) has written 0 into (x, y). */
  predicate ClearedBefore(mask: Grid, n: nat, m: nat, x: int, y: int, i: int, j: int)
    requires IsGrid(mask, n, m)
  {
    exists p, q | x - 1 <= p <= x + 1 && y - 1 <= q <= y + 1 ::
      Before(p, q, i, j) && Clears(mask, n, m, p, q, x, y)
  }

  /** Some visited cell writes 0 into (x, y). */
  predicate Cleared(mask: Grid, n: nat, m: nat, x: int, y: int)
    requires IsGrid(mask, n, m)
  {
    exists p, q | x - 1 <= p <= x + 1 && y - 1 <= q <= y + 1 :: Clears(mask, n, m, p, q, x, y)
  }

  /** What mask_borderer returns, cell by cell: every write is a 0 into a copy
      of the input, and every read is from the input, so a cell is the input
      value unless some visited cell clears it. */
  function Bordered(mask: Grid, m: nat): (b: Grid)
    requires IsGrid(mask, |mask|, m)
    ensures IsGrid(b, |mask|, m)
    ensures forall x, y :: 0 <= x < |mask| && 0 <= y < m ==> b[x][y] == 0 || b[x][y] == mask[x][y]
  {
    seq(|mask|, x requires 0 <= x < |mask| =>
      seq(m, y requires 0 <= y < m =>
        if Cleared(mask, |mask|, m, x, y) then 0 else mask[x][y]))
  }

  lemma ClearedStep(mask: Grid, n: nat, m: nat, x: int, y: int, i: int, j: int)
    requires IsGrid(mask, n, m) && Interior(n, m, i, j)
    ensures ClearedBefore(mask, n, m, x, y, i, j + 1) <==>
              ClearedBefore(mask, n, m, x, y, i, j) || Clears(mask, n, m, i, j, x, y)
  {
    if Clears(mask, n, m, i, j, x, y) {
      assert Before(i, j, i, j + 1);
    }
    if ClearedBefore(mask, n, m, x, y, i, j) {
      var p, q :| x - 1 <= p <= x + 1 && y - 1 <= q <= y + 1 &&
                  Before(p, q, i, j) && Clears(mask, n, m, p, q, x, y);
      assert Before(p, q, i, j + 1);
    }
  }

  lemma ClearedNextRow(mask: Grid, n: nat, m: nat, x: int, y: int, i: int)
    requires IsGrid(mask, n, m) && m >= 2
    ensures ClearedBefore(mask, n, m, x, y, i, m - 1) <==> ClearedBefore(mask, n, m, x, y, i + 1, 1)
  {
    if ClearedBefore(mask, n, m, x, y, i + 1, 1) {
      var p, q :| x - 1 <= p <= x + 1 && y - 1 <= q <= y + 1 &&
                  Before(p, q, i + 1, 1) && Clears(mask, n, m, p, q, x, y);
      assert Before(p, q, i, m - 1);
    }
  }

  lemma ClearedAll(mask: Grid, n: nat, m: nat, x: int, y: int, i: int)
    requires IsGrid(mask, n, m) && i >= n - 1
    ensures ClearedBefore(mask, n, m, x, y, i, 1) <==> Cleared(mask, n, m, x, y)
  {
    if Cleared(mask, n, m, x, y) {
      var p, q :| x - 1 <= p <= x + 1 && y - 1 <= q <= y + 1 && Clears(mask, n, m, p, q, x, y);
      assert Before(p, q, i, 1);
    }
  }

  /** The nine writes of one visit whose input cell is 0. */
  method ClearNeighbourhood(b: array2<int>, i: int, j: int)
    requires 1 <= i < b.Length0 - 1 && 1 <= j < b.Length1 - 1
    modifies b
    ensures forall x, y :: 0 <= x < b.Length0 && 0 <= y < b.Length1 ==>
              b[x, y] == if -1 <= i - x <= 1 && -1 <= j - y <= 1 then 0 else old(b[x, y])
  {
    b[i - 1, j] := 0;
    b[i, j - 1] := 0;
    b[i - 1, j - 1] := 0;
    b[i, j] := 0;
    b[i + 1, j] := 0;
    b[i, j + 1] := 0;
    b[i + 1, j + 1] := 0;
    b[i - 1, j + 1] := 0;
    b[i + 1, j - 1] := 0;
  }

  /** mask_borderer: copies the mask and, visiting every cell that is not on
      the outermost ring, clears the 3 x 3 neighbourhood of each 0 it reads
      in the INPUT and clears the visited cell itself when it lies on the
      inner ring. The input is a value and is left as it was. */
  method MaskBorderer(mask: Grid, m: nat) returns (bordered: Grid)
    requires IsGrid(mask, |mask|, m)
    ensures bordered == Bordered(mask, m)
  {
    var n := |mask|;
    var b := new int[n, m]((x, y) requires 0 <= x < n && 0 <= y < m => mask[x][y]);
    var i := 1;
    while i < n - 1
      invariant 1 <= i && (n >= 2 ==> i <= n - 1)
      invariant forall x, y :: 0 <= x < n && 0 <= y < m ==>
                  b[x, y] == if ClearedBefore(mask, n, m, x, y, i, 1) then 0 else mask[x][y]
    {
      var j := 1;
      while j < m - 1
        invariant 1 <= j && (m >= 2 ==> j <= m - 1)
        invariant forall x, y :: 0 <= x < n && 0 <= y < m ==>
                    b[x, y] == if ClearedBefore(mask, n, m, x, y, i, j) then 0 else mask[x][y]
      {
        if mask[i][j] == 0 {
          ClearNeighbourhood(b, i, j);
        }
        if i == 1 || j == 1 || i == n - 2 || j == m - 2 {
          b[i, j] := 0;
        }
        forall x, y | 0 <= x < n && 0 <= y < m
          ensures ClearedBefore(mask, n, m, x, y, i, j + 1) <==>
                    ClearedBefore(mask, n, m, x, y, i, j) || Clears(mask, n, m, i, j, x, y)
        {
          ClearedStep(mask, n, m, x, y, i, j);
        }
        j := j + 1;
      }
      forall x, y | 0 <= x < n && 0 <= y < m
        ensures ClearedBefore(mask, n, m, x, y, i, j) <==> ClearedBefore(mask, n, m, x, y, i + 1, 1)
      {
        if m >= 2 {
          ClearedNextRow(mask, n, m, x, y, i);
        } else {
          assert !ClearedBefore(mask, n, m, x, y, i + 1, 1);
        }
      }
      i := i + 1;
    }
    forall x, y | 0 <= x < n && 0 <= y < m
      ensures ClearedBefore(mask, n, m, x, y, i, 1) <==> Cleared(mask, n, m, x, y)
    {
      if n >= 2 {
        ClearedAll(mask, n, m, x, y, i);
      } else {
        assert !Cleared(mask, n, m, x, y);
      }
    }
    bordered := seq(n, x requires 0 <= x < n reads b =>
                  seq(m, y requires 0 <= y < m reads b => b[x, y]));
    var eroded := Bordered(mask, m);
    forall x | 0 <= x < n ensures bordered[x] == eroded[x] {
      assert |bordered[x]| == |eroded[x]|;
    }
  }

  /** Every visited cell of the inner ring is 0 after erosion. */
  lemma InnerRingCleared(mask: Grid, m: nat, x: int, y: int)
    requires IsGrid(mask, |mask|, m) && OnInnerRing(|mask|, m, x, y)
    ensures Bordered(mask, m)[x][y] == 0
  {
    assert Clears(mask, |mask|, m, x, y, x, y);
  }

  /** A 0 read at a visited cell clears its whole 3 x 3 neighbourhood. */
  lemma NeighbourOfZeroCleared(mask: Grid, m: nat, p: int, q: int, x: int, y: int)
    requires IsGrid(mask, |mask|, m) && Interior(|mask|, m, p, q) && mask[p][q] == 0
    requires -1 <= p - x <= 1 && -1 <= q - y <= 1
    ensures Bordered(mask, m)[x][y] == 0
  {
    assert Clears(mask, |mask|, m, p, q, x, y);
  }

  /** Away from the two outer rings, a cell survives erosion exactly when its
      whole 3 x 3 neighbourhood is non-zero in the input; it then keeps its value. */
  lemma DeepInteriorSurvives(mask: Grid, m: nat, x: int, y: int)
    requires IsGrid(mask, |mask|, m)
    requires 2 <= x <= |mask| - 3 && 2 <= y <= m - 3
    ensures Bordered(mask, m)[x][y] != 0 <==>
              forall p, q :: x - 1 <= p <= x + 1 && y - 1 <= q <= y + 1 ==> mask[p][q] != 0
    ensures Bordered(mask, m)[x][y] != 0 ==> Bordered(mask, m)[x][y] == mask[x][y]
  {
    var n := |mask|;
    if !forall p, q :: x - 1 <= p <= x + 1 && y - 1 <= q <= y + 1 ==> mask[p][q] != 0 {
      var p, q :| x - 1 <= p <= x + 1 && y - 1 <= q <= y + 1 && mask[p][q] == 0;
      NeighbourOfZeroCleared(mask, m, p, q, x, y);
    }
  }

  /** On a non-negative mask the eroded mask lies pointwise below the input. */
  lemma BorderedBelow(mask: Grid, m: nat)
    requires IsGrid(mask, |mask|, m) && NonNegative(mask)
    ensures NonNegative(Bordered(mask, m))
    ensures forall x, y :: 0 <= x < |mask| && 0 <= y < m ==> Bordered(mask, m)[x][y] <= mask[x][y]
  {
  }

  // ---------------------------------------------------------------------
  // ImageMask: the class-level constants
  // ---------------------------------------------------------------------

  /** The five cached masks of class ImageMask; the getters getMask,
      getEMask, getEMaskWithBorder, getEMaskWithDoubleBorder and
      getStretchedMask are the field selectors. */
  datatype ImageMask = ImageMask(
    mask: Grid,
    eMask: Grid,
    eBorderedMask: Grid,
    e2BorderedMask: Grid,
    stretchedMask: Grid)

  /** Builds the constants from the two polygon fills (16 x 16 sensor grid,
      24 x 40 stretched grid): rotate a quarter turn clockwise, pad the
      sensor mask with a zero ring, erode once and twice. */
  function BuildImageMask(fill: Grid, stretchedFill: Grid): (im: ImageMask)
    requires IsGrid(fill, 16, 16) && IsGrid(stretchedFill, 24, 40)
    ensures IsGrid(im.mask, 16, 16)
    ensures IsGrid(im.eMask, 18, 18) && IsGrid(im.eBorderedMask, 18, 18)
    ensures IsGrid(im.e2BorderedMask, 18, 18)
    ensures IsGrid(im.stretchedMask, 40, 24)
    ensures im.eBorderedMask == Bordered(im.eMask, 18)
    ensures im.e2BorderedMask == Bordered(im.eBorderedMask, 18)
  {
    var mask := Rot270(fill, 16);
    var eMask := Pad(mask, 16);
    var eBordered := Bordered(eMask, 18);
    ImageMask(mask, eMask, eBordered, Bordered(eBordered, 18), Rot270(stretchedFill, 40))
  }

  /** Where each cell of the constants comes from: the masks are the fills
      turned a quarter turn clockwise, and `e_mask` adds a zero ring. */
  lemma ImageMaskLayout(fill: Grid, stretchedFill: Grid)
    requires IsGrid(fill, 16, 16) && IsGrid(stretchedFill, 24, 40)
    ensures var im := BuildImageMask(fill, stretchedFill);
      && (forall i, j :: 0 <= i < 40 && 0 <= j < 24 ==> im.stretchedMask[i][j] == stretchedFill[23 - j][i])
      && (forall i, j :: 0 <= i < 16 && 0 <= j < 16 ==>
            im.mask[i][j] == fill[15 - j][i] && im.eMask[i + 1][j + 1] == im.mask[i][j])
      && (forall k :: 0 <= k < 18 ==>
            im.eMask[0][k] == 0 && im.eMask[17][k] == 0 && im.eMask[k][0] == 0 && im.eMask[k][17] == 0)
  {
  }

  /** With a 0/1 polygon fill, the double-border mask lies below the
      single-border mask, which lies below the padded mask, and all of them
      stay 0/1 with a zero outer ring. */
  lemma ImageMaskNested(fill: Grid, stretchedFill: Grid)
    requires IsGrid(fill, 16, 16) && IsGrid(stretchedFill, 24, 40) && IsBinary(fill)
    ensures var im := BuildImageMask(fill, stretchedFill);
      && IsBinary(im.eMask) && IsBinary(im.eBorderedMask) && IsBinary(im.e2BorderedMask)
      && (forall x, y :: 0 <= x < 18 && 0 <= y < 18 ==>
            im.e2BorderedMask[x][y] <= im.eBorderedMask[x][y] <= im.eMask[x][y])
      && (forall k :: 0 <= k < 18 ==>
            im.e2BorderedMask[0][k] == 0 && im.e2BorderedMask[17][k] == 0 &&
            im.e2BorderedMask[k][0] == 0 && im.e2BorderedMask[k][17] == 0)
  {
    var im := BuildImageMask(fill, stretchedFill);
    ImageMaskLayout(fill, stretchedFill);
    assert IsBinary(im.mask);
    assert IsBinary(im.eMask);
    BorderedBelow(im.eMask, 18);
    BorderedBelow(im.eBorderedMask, 18);
  }
}
