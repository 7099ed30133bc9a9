/** Shared vocabulary: 2-D integer grids (numpy arrays of the sensor frame),
    an Option for the paths on which the Python code raises, the row-major
    argmax numpy uses, and Python's round-half-to-even. */
module Grids {

  /** A 2-D numeric array, row by row. */
  type Grid = seq<seq<int>>

  datatype Option<T> = None | Some(value: T)

  /** `g` is rectangular with the given shape. */
  predicate IsGrid(g: Grid, rows: nat, cols: nat)
  {
    |g| == rows && forall r :: 0 <= r < rows ==> |g[r]| == cols
  }

  /** Every cell holds 0 or 1 (a mask filled with value 1 on zeros). */
  predicate IsBinary(g: Grid)
  {
    forall r, c :: 0 <= r < |g| && 0 <= c < |g[r]| ==> g[r][c] == 0 || g[r][c] == 1
  }

  /** Every cell is non-negative (a sensor reading). */
  predicate NonNegative(g: Grid)
  {
    forall r, c :: 0 <= r < |g| && 0 <= c < |g[r]| ==> g[r][c] >= 0
  }

  /** The rows of `g` laid end to end, as numpy's `flatten` and `argmax` see them. */
  function Flatten(g: Grid): (f: seq<int>)
    decreases |g|
  {
    if |g| == 0 then [] else g[0] + Flatten(g[1..])
  }

  lemma {:induction false} FlattenAt(g: Grid, cols: nat, r: nat, c: nat)
    requires IsGrid(g, |g|, cols)
    requires r < |g| && c < cols
    ensures |Flatten(g)| == |g| * cols
    ensures r * cols + c < |Flatten(g)|
    ensures Flatten(g)[r * cols + c] == g[r][c]
    decreases |g|
  {
    FlattenLength(g, cols);
    if r == 0 {
      assert Flatten(g) == g[0] + Flatten(g[1..]);
    } else {
      FlattenAt(g[1..], cols, r - 1, c);
      assert Flatten(g) == g[0] + Flatten(g[1..]);
      assert r * cols + c == cols + ((r - 1) * cols + c);
    }
  }

  lemma {:induction false} FlattenLength(g: Grid, cols: nat)
    requires IsGrid(g, |g|, cols)
    ensures |Flatten(g)| == |g| * cols
    decreases |g|
  {
    if |g| > 0 {
      FlattenLength(g[1..], cols);
      assert (|g| - 1) * cols + cols == |g| * cols;
    }
  }

  /** A value above t occurs in the flattened grid exactly when some cell
      holds one. */
  lemma {:induction false} FlattenHasAbove(g: Grid, t: int)
    ensures (exists i :: 0 <= i < |Flatten(g)| && Flatten(g)[i] > t) <==>
            (exists r, c :: 0 <= r < |g| && 0 <= c < |g[r]| && g[r][c] > t)
    decreases |g|
  {
    if |g| > 0 {
      var f, rest := Flatten(g), Flatten(g[1..]);
      FlattenHasAbove(g[1..], t);
      assert f == g[0] + rest;
      if exists i :: 0 <= i < |f| && f[i] > t {
        var i :| 0 <= i < |f| && f[i] > t;
        if i < |g[0]| {
          assert g[0][i] > t;
        } else {
          assert rest[i - |g[0]|] > t;
          var r, c :| 0 <= r < |g[1..]| && 0 <= c < |g[1..][r]| && g[1..][r][c] > t;
          assert g[r + 1][c] > t;
        }
      }
      if exists r, c :: 0 <= r < |g| && 0 <= c < |g[r]| && g[r][c] > t {
        var r, c :| 0 <= r < |g| && 0 <= c < |g[r]| && g[r][c] > t;
        if r == 0 {
          assert f[c] > t;
        } else {
          assert g[1..][r - 1][c] > t;
          var i :| 0 <= i < |rest| && rest[i] > t;
          assert f[|g[0]| + i] > t;
        }
      }
    }
  }

  /** numpy's `argmax`: the FIRST index holding the largest value. */
  function ArgMax(s: seq<int>): (k: nat)
    requires |s| > 0
    ensures k < |s|
    ensures forall i :: 0 <= i < |s| ==> s[i] <= s[k]
    ensures forall i :: 0 <= i < k ==> s[i] < s[k]
    decreases |s|
  {
    if |s| == 1 then 0
    else
      var k := ArgMax(s[..|s| - 1]);
      if s[|s| - 1] > s[k] then |s| - 1 else k
  }

  /** Python 3's `round` to an integer: nearest integer, ties to the even one. */
  function RoundHalfEven(x: real): (n: int)
    ensures -0.5 <= x - n as real <= 0.5
    ensures (x - n as real == 0.5 || n as real - x == 0.5) ==> n % 2 == 0
  {
    var f := x.Floor;
    var d := x - f as real;
    if d < 0.5 then f
    else if d > 0.5 then f + 1
    else if f % 2 == 0 then f
    else f + 1
  }

  /** n is a nearest integer to x, and the even one on a tie. */
  predicate NearestHalfEven(x: real, n: int)
  {
    -0.5 <= x - n as real <= 0.5 && ((x - n as real == 0.5 || n as real - x == 0.5) ==> n % 2 == 0)
  }

  /** The two clauses of RoundHalfEven's contract pin its value down. */
  lemma RoundHalfEvenUnique(x: real, n: int)
    requires -0.5 <= x - n as real <= 0.5
    requires (x - n as real == 0.5 || n as real - x == 0.5) ==> n % 2 == 0
    ensures n == RoundHalfEven(x)
  {
    var m := RoundHalfEven(x);
  }
}
