/** Position recognition of item/classifier/position_recognition.py: where
    an item rests on the tactile table (edge, side or center). The foreign
    call image_utils.stretch_image is the parameter `stretch`. */
module PositionRecognition {
  import opened Grids
  import opened Params

  /** ItemPlacement of item/item.py. */
  datatype Placement = Unknown | Center | Side | Edge

  /** The `output_type` argument of get_image_centroid: `float`, `int` or anything else. */
  datatype OutputType = FloatOutput | IntOutput | OtherOutput

  /** A planar point: x is a column coordinate, y a row coordinate. */
  datatype Point = Point(x: real, y: real)

  /** The shapes ImageMask's constants have. */
  predicate ValidImageMask(im: ImageMask)
  {
    IsGrid(im.mask, 16, 16) && IsGrid(im.eMask, 18, 18) && IsGrid(im.eBorderedMask, 18, 18) &&
    IsGrid(im.e2BorderedMask, 18, 18) && IsGrid(im.stretchedMask, 40, 24)
  }

  // ---------------------------------------------------------------------
  // get_image_centroid: raster moments m00, m10, m01 divided out
  // ---------------------------------------------------------------------

  function RowMass(row: seq<int>): int
    decreases |row|
  {
    if |row| == 0 then 0 else RowMass(row[..|row| - 1]) + row[|row| - 1]
  }

  function RowMomentX(row: seq<int>): int
    decreases |row|
  {
    if |row| == 0 then 0 else RowMomentX(row[..|row| - 1]) + (|row| - 1) * row[|row| - 1]
  }

  /** m00: the sum of all values. */
  function Mass(g: Grid): int
    decreases |g|
  {
    if |g| == 0 then 0 else Mass(g[..|g| - 1]) + RowMass(g[|g| - 1])
  }

  /** m10: every value weighted by its column index. */
  function MomentX(g: Grid): int
    decreases |g|
  {
    if |g| == 0 then 0 else MomentX(g[..|g| - 1]) + RowMomentX(g[|g| - 1])
  }

  /** m01: every value weighted by its row index. */
  function MomentY(g: Grid): int
    decreases |g|
  {
    if |g| == 0 then 0 else MomentY(g[..|g| - 1]) + (|g| - 1) * RowMass(g[|g| - 1])
  }

  lemma {:induction false} RowMomentBounds(row: seq<int>)
    requires forall c :: 0 <= c < |row| ==> row[c] >= 0
    ensures 0 <= RowMass(row)
    ensures 0 <= RowMomentX(row) <= (|row| - 1) * RowMass(row)
    decreases |row|
  {
    if |row| > 0 {
      var n := |row|;
      var p := row[..n - 1];
      RowMomentBounds(p);
      assert (n - 2) * RowMass(p) <= (n - 1) * RowMass(p);
      assert (n - 1) * RowMass(row) == (n - 1) * RowMass(p) + (n - 1) * row[n - 1];
    }
  }

  /** On a non-negative rows x cols image the moments are bounded by the mass
      times the largest column and row index. */
  lemma {:induction false} MomentBounds(g: Grid, cols: nat)
    requires IsGrid(g, |g|, cols) && NonNegative(g)
    ensures 0 <= Mass(g)
    ensures 0 <= MomentX(g) <= (cols - 1) * Mass(g)
    ensures 0 <= MomentY(g) <= (|g| - 1) * Mass(g)
    decreases |g|
  {
    if |g| > 0 {
      var n := |g|;
      var p := g[..n - 1];
      var last := g[n - 1];
      assert IsGrid(p, |p|, cols) && NonNegative(p);
      MomentBounds(p, cols);
      assert forall c :: 0 <= c < |last| ==> last[c] >= 0;
      RowMomentBounds(last);
      var mp, ml := Mass(p), RowMass(last);
      Distribute(cols - 1, mp, ml);
      Distribute(n - 1, mp, ml);
      ScaleBelow(n - 2, n - 1, mp);
    }
  }

  lemma Distribute(k: int, x: int, y: int)
    ensures k * (x + y) == k * x + k * y
  {
  }

  lemma ScaleBelow(a: int, b: int, x: int)
    requires a <= b && x >= 0
    ensures a * x <= b * x
  {
  }

  function CentroidX(g: Grid): real
    requires Mass(g) != 0
  {
    MomentX(g) as real / Mass(g) as real
  }

  function CentroidY(g: Grid): real
    requires Mass(g) != 0
  {
    MomentY(g) as real / Mass(g) as real
  }

  /** Python's `round(v, 2)` on the exact value. */
  function RoundTo2(v: real): (r: real)
    ensures -0.005 <= v - r <= 0.005
    ensures r * 100.0 == RoundHalfEven(v * 100.0) as real
  {
    RoundHalfEven(v * 100.0) as real / 100.0
  }

  /** get_image_centroid. The division by m00 raises when the image sums to
      0; that path is None. */
  function GetImageCentroid(image: Grid, outputType: OutputType): (c: Option<Point>)
    ensures c.None? <==> Mass(image) == 0
    ensures c.Some? && outputType == FloatOutput ==>
              -0.005 <= CentroidX(image) - c.value.x <= 0.005 &&
              -0.005 <= CentroidY(image) - c.value.y <= 0.005 &&
              c.value.x * 100.0 == RoundHalfEven(CentroidX(image) * 100.0) as real &&
              c.value.y * 100.0 == RoundHalfEven(CentroidY(image) * 100.0) as real
    ensures c.Some? && outputType != FloatOutput ==>
              c.value.x == c.value.x.Floor as real && c.value.y == c.value.y.Floor as real &&
              -0.5 <= CentroidX(image) - c.value.x <= 0.5 &&
              -0.5 <= CentroidY(image) - c.value.y <= 0.5 &&
              c.value.x == RoundHalfEven(CentroidX(image)) as real &&
              c.value.y == RoundHalfEven(CentroidY(image)) as real
  {
    if Mass(image) == 0 then None
    else
      var cx := CentroidX(image);
      var cy := CentroidY(image);
      match outputType
      case FloatOutput => Some(Point(RoundTo2(cx), RoundTo2(cy)))
      case _ => Some(Point(RoundHalfEven(cx) as real, RoundHalfEven(cy) as real))
  }

  /** The exact centroid of a non-empty, non-negative image lies inside the
      image, and the integer centroid is a valid pixel index. */
  lemma CentroidInsideImage(image: Grid, cols: nat, outputType: OutputType)
    requires IsGrid(image, |image|, cols) && NonNegative(image) && Mass(image) != 0
    ensures 0.0 <= CentroidX(image) <= (cols - 1) as real
    ensures 0.0 <= CentroidY(image) <= (|image| - 1) as real
    ensures outputType != FloatOutput ==>
              var c := GetImageCentroid(image, outputType).value;
              0.0 <= c.x <= (cols - 1) as real && 0.0 <= c.y <= (|image| - 1) as real
  {
    MomentBounds(image, cols);
    DivideBelow(MomentX(image), Mass(image), cols - 1);
    DivideBelow(MomentY(image), Mass(image), |image| - 1);
    if outputType != FloatOutput {
      RoundInside(CentroidX(image), cols - 1);
      RoundInside(CentroidY(image), |image| - 1);
    }
  }

  lemma DivideBelow(a: int, m: int, k: int)
    requires m > 0 && 0 <= a <= k * m
    ensures 0.0 <= a as real / m as real <= k as real
  {
    var am, mr, kr := a as real, m as real, k as real;
    assert am <= kr * mr;
    var q := am / mr;
    assert q * mr == am;
    assert (kr - q) * mr == kr * mr - am;
  }

  /** Rounding a value of [0, k] to an integer stays in [0, k]. */
  lemma RoundInside(v: real, k: int)
    requires 0.0 <= v <= k as real
    ensures 0 <= RoundHalfEven(v) <= k
  {
  }

  // ---------------------------------------------------------------------
  // find_histogram_peak
  // ---------------------------------------------------------------------

  /** np.where(h == v)[0] restricted to indices below n, in increasing order. */
  function TiesBelow(h: seq<int>, v: int, n: nat): seq<nat>
    requires n <= |h|
  {
    if n == 0 then [] else TiesBelow(h, v, n - 1) + (if h[n - 1] == v then [n - 1] else [])
  }

  /** Neighbouring tied indices differ by exactly 1. */
  predicate Consecutive(t: seq<nat>)
  {
    forall k :: 0 <= k < |t| - 1 ==> t[k + 1] == t[k] + 1
  }

  function SumOf(t: seq<nat>): nat
  {
    if |t| == 0 then 0 else SumOf(t[..|t| - 1]) + t[|t| - 1]
  }

  /** find_histogram_peak: the first argmax when the maximum is unique; for
      several maxima, their average index when they form one run, else -1
      (when `canRetNone`) or the last of them. */
  function FindHistogramPeak(hist: seq<int>, canRetNone: bool): (peak: real)
    requires |hist| > 0
    ensures peak == -1.0 || peak >= 0.0
    ensures peak == -1.0 ==> canRetNone
  {
    var k := ArgMax(hist);
    var t := TiesBelow(hist, hist[k], |hist|);
    if |t| > 1 then
      if !Consecutive(t) then (if canRetNone then -1.0 else t[|t| - 1] as real)
      else SumOf(t) as real / |t| as real
    else k as real
  }

  /** The peak is -1 or lies between 0 and the last index of the histogram. */
  lemma PeakInRange(hist: seq<int>, canRetNone: bool)
    requires |hist| > 0
    ensures var peak := FindHistogramPeak(hist, canRetNone);
      peak == -1.0 || 0.0 <= peak <= (|hist| - 1) as real
  {
    var k := ArgMax(hist);
    var t := TiesBelow(hist, hist[k], |hist|);
    TiesFacts(hist, hist[k], |hist|);
    if |t| > 1 && Consecutive(t) {
      SumOfBelow(t, |hist| - 1);
      DivideBelow(SumOf(t), |t|, |hist| - 1);
    }
  }

  lemma {:induction false} SumOfBelow(t: seq<nat>, m: nat)
    requires forall k :: 0 <= k < |t| ==> t[k] <= m
    ensures SumOf(t) <= (m as int) * |t|
  {
    if |t| > 0 {
      SumOfBelow(t[..|t| - 1], m);
      assert (m as int) * (|t| - 1) + m == (m as int) * |t|;
    }
  }

  lemma {:induction false} TiesFacts(h: seq<int>, v: int, n: nat)
    requires n <= |h|
    ensures var t := TiesBelow(h, v, n);
      && (forall k :: 0 <= k < |t| ==> t[k] < n && h[t[k]] == v)
      && (forall i :: 0 <= i < n && h[i] == v ==> i in t)
      && (forall a, b :: 0 <= a < b < |t| ==> t[a] < t[b])
  {
    if n > 0 {
      TiesFacts(h, v, n - 1);
    }
  }

  function Range(a: nat, b: nat): (r: seq<nat>)
    requires a <= b
    ensures |r| == b - a && forall i :: 0 <= i < b - a ==> r[i] == a + i
  {
    seq(b - a, i requires 0 <= i < b - a => a + i)
  }

  lemma {:induction false} SumOfRange(a: nat, b: nat)
    requires a <= b
    ensures 2 * SumOf(Range(a, b)) == (a + b - 1) * (b - a)
    decreases b - a
  {
    if a < b {
      SumOfRange(a, b - 1);
      assert Range(a, b)[..b - a - 1] == Range(a, b - 1);
      assert SumOf(Range(a, b)) == SumOf(Range(a, b - 1)) + (b - 1);
      assert (a + b - 2) * (b - 1 - a) + 2 * (b - 1) == (a + b - 1) * (b - a);
    }
  }

  /** The tied indices of a run s..e of maxima. */
  lemma {:induction false} TiesOfRun(h: seq<int>, s: nat, e: nat, n: nat)
    requires s <= e < |h| && n <= |h|
    requires forall i :: s <= i <= e ==> h[i] == h[s]
    requires forall i :: 0 <= i < |h| && (i < s || i > e) ==> h[i] < h[s]
    ensures TiesBelow(h, h[s], n) == if n <= s then [] else if n <= e + 1 then Range(s, n) else Range(s, e + 1)
  {
    if n > 0 {
      TiesOfRun(h, s, e, n - 1);
      var prev := TiesBelow(h, h[s], n - 1);
      if n <= s {
        assert h[n - 1] < h[s];
        assert TiesBelow(h, h[s], n) == prev == [];
      } else if n <= e + 1 {
        assert h[n - 1] == h[s];
        if n - 1 > s {
          assert Range(s, n - 1) + [n - 1] == Range(s, n);
        } else {
          assert Range(s, n) == [s];
        }
        assert TiesBelow(h, h[s], n) == prev + [n - 1];
      } else {
        assert h[n - 1] < h[s];
        assert TiesBelow(h, h[s], n) == prev == Range(s, e + 1);
      }
    }
  }

  /** If the maximum is held by one bucket only, the peak is that bucket,
      whatever `canRetNone` says. */
  lemma PeakUnique(hist: seq<int>, canRetNone: bool, k: nat)
    requires k < |hist|
    requires forall i :: 0 <= i < |hist| && i != k ==> hist[i] < hist[k]
    ensures FindHistogramPeak(hist, canRetNone) == k as real
  {
    var a := ArgMax(hist);
    assert a == k;
    TiesOfRun(hist, k, k, |hist|);
    assert TiesBelow(hist, hist[k], |hist|) == Range(k, k + 1);
  }

  /** Tied maxima forming one run s..e give the average index (s + e) / 2,
      possibly a half-integer, whatever `canRetNone` says. */
  lemma PeakContiguous(hist: seq<int>, canRetNone: bool, s: nat, e: nat)
    requires s < e < |hist|
    requires forall i :: s <= i <= e ==> hist[i] == hist[s]
    requires forall i :: 0 <= i < |hist| && (i < s || i > e) ==> hist[i] < hist[s]
    ensures FindHistogramPeak(hist, canRetNone) == (s + e) as real / 2.0
  {
    var a := ArgMax(hist);
    assert a == s;
    TiesOfRun(hist, s, e, |hist|);
    var t := TiesBelow(hist, hist[s], |hist|);
    assert t == Range(s, e + 1);
    assert Consecutive(t) && |t| == e + 1 - s > 1;
    assert FindHistogramPeak(hist, canRetNone) == SumOf(t) as real / |t| as real;
    SumOfRange(s, e + 1);
    AverageOfRun(SumOf(t), s, e);
  }

  /** The mean of s..e is (s + e) / 2. */
  lemma AverageOfRun(sum: nat, s: nat, e: nat)
    requires s <= e && 2 * sum == (s + e) * (e + 1 - s)
    ensures sum as real / (e + 1 - s) as real == (s + e) as real / 2.0
  {
    var len := (e + 1 - s) as real;
    assert sum as real * 2.0 == (s + e) as real * len;
  }

  lemma {:induction false} ConsecutiveValues(t: seq<nat>, k: nat)
    requires Consecutive(t) && k < |t|
    ensures t[k] == t[0] + k
  {
    if k > 0 {
      ConsecutiveValues(t, k - 1);
    }
  }

  /** Maxima that do not form one run (some bucket g between two of them is
      lower) give -1 when `canRetNone`, else the largest tied index b. */
  lemma PeakDisjoint(hist: seq<int>, canRetNone: bool, a: nat, g: nat, b: nat)
    requires a < g < b < |hist|
    requires hist[a] == hist[b] && hist[g] < hist[a]
    requires forall i :: 0 <= i < |hist| ==> hist[i] <= hist[a]
    requires forall i :: b < i < |hist| ==> hist[i] < hist[b]
    ensures FindHistogramPeak(hist, canRetNone) == if canRetNone then -1.0 else b as real
  {
    var k := ArgMax(hist);
    var v := hist[k];
    assert v == hist[a];
    var t := TiesBelow(hist, v, |hist|);
    TiesAfterLast(hist, v, b, |hist|);
    TiesFacts(hist, v, b);
    assert a in TiesBelow(hist, v, b);
    assert |t| > 1 && t[|t| - 1] == b;
    if Consecutive(t) {
      TiesFacts(hist, v, |hist|);
      var ia :| 0 <= ia < |t| && t[ia] == a;
      ConsecutiveGapFree(t, ia, g);
      assert false;
    }
  }

  /** When b is the last bucket holding v, the ties below any n > b end with b. */
  lemma {:induction false} TiesAfterLast(h: seq<int>, v: int, b: nat, n: nat)
    requires b < n <= |h| && h[b] == v
    requires forall i :: b < i < |h| ==> h[i] != v
    ensures TiesBelow(h, v, n) == TiesBelow(h, v, b) + [b]
  {
    if n > b + 1 {
      TiesAfterLast(h, v, b, n - 1);
    }
  }

  /** A run of consecutive indices holds every index between two of its
      elements and its last one. */
  lemma ConsecutiveGapFree(t: seq<nat>, ia: nat, g: nat)
    requires Consecutive(t) && ia < |t| && t[ia] <= g <= t[|t| - 1]
    ensures g in t
  {
    ConsecutiveValues(t, ia);
    ConsecutiveValues(t, |t| - 1);
    ConsecutiveValues(t, g - t[0]);
  }

  /** The worked examples of the peak rule. */
  lemma PeakExamples()
    ensures FindHistogramPeak([1, 5, 5, 5, 2], true) == 2.0
    ensures FindHistogramPeak([1, 5, 5, 5, 2], false) == 2.0
    ensures FindHistogramPeak([5, 1, 5, 1, 1], true) == -1.0
    ensures FindHistogramPeak([5, 1, 5, 1, 1], false) == 2.0
    ensures FindHistogramPeak([3, 9, 4], true) == 1.0
  {
    PeakContiguous([1, 5, 5, 5, 2], true, 1, 3);
    PeakContiguous([1, 5, 5, 5, 2], false, 1, 3);
    PeakDisjoint([5, 1, 5, 1, 1], true, 0, 1, 2);
    PeakDisjoint([5, 1, 5, 1, 1], false, 0, 1, 2);
    PeakUnique([3, 9, 4], true, 1);
  }

  // ---------------------------------------------------------------------
  // get_histogram_of_weight_from_point: gap filling and per-bucket means
  // ---------------------------------------------------------------------

  predicate StrictlyIncreasing(s: seq<int>)
  {
    forall a, b :: 0 <= a < b < |s| ==> s[a] < s[b]
  }

  /** np.where(s == v)[0][0]: the first position holding v. */
  function IndexOf(s: seq<int>, v: int): (k: nat)
    requires v in s
    ensures k < |s| && s[k] == v
    ensures forall j :: 0 <= j < k ==> s[j] != v
  {
    if s[0] == v then 0 else 1 + IndexOf(s[1..], v)
  }

  /** The gap-filling loop: `nrs` are the distinct distances (sorted, as
      np.unique returns them) and `vals` their counts. Every bucket from 0 to
      the largest distance gets an entry; observed distances keep their
      count, missing ones get count 1, so every later divisor is at least 1. */
  method FillHistogramGaps(nrs: seq<int>, vals: seq<int>) returns (newNrs: seq<int>, newVals: seq<int>)
    requires 0 < |nrs| == |vals| && StrictlyIncreasing(nrs) && nrs[0] >= 0
    ensures |newNrs| == |newVals| == nrs[|nrs| - 1] + 1
    ensures forall i :: 0 <= i < |newNrs| ==> newNrs[i] == i
    ensures forall k :: 0 <= k < |nrs| ==> newVals[nrs[k]] == vals[k]
    ensures forall i :: 0 <= i < |newVals| && i !in nrs ==> newVals[i] == 1
    ensures (forall k :: 0 <= k < |vals| ==> vals[k] >= 1) ==> forall i :: 0 <= i < |newVals| ==> newVals[i] >= 1
    ensures newVals == GapFilled(nrs, vals)
  {
    var top := nrs[|nrs| - 1];
    newNrs, newVals := [], [];
    var i := 0;
    while i < top + 1
      invariant 0 <= i <= top + 1
      invariant |newNrs| == |newVals| == i
      invariant forall x :: 0 <= x < i ==> newNrs[x] == x
      invariant forall x :: 0 <= x < i ==> newVals[x] == if x in nrs then vals[IndexOf(nrs, x)] else 1
    {
      newNrs := newNrs + [i];
      if i in nrs {
        var nrId := IndexOf(nrs, i);
        newVals := newVals + [vals[nrId]];
      } else {
        newVals := newVals + [1];
      }
      i := i + 1;
    }
    forall k | 0 <= k < |nrs| ensures newVals[nrs[k]] == vals[k] {
      assert nrs[0] <= nrs[k] <= top;
      assert IndexOf(nrs, nrs[k]) == k;
    }
  }

  /** The final division: each bucket's summed intensity over its count,
      rounded half to even (np.round) and stored as uint16. */
  function WeightHistogram(binSums: seq<int>, counts: seq<int>): (w: seq<int>)
    requires |binSums| == |counts| && forall i :: 0 <= i < |counts| ==> counts[i] >= 1
    ensures |w| == |binSums|
    ensures forall i :: 0 <= i < |w| ==> 0 <= w[i] < 65536
    ensures forall i :: 0 <= i < |w| ==> w[i] == Uint16Round(binSums[i] as real / counts[i] as real)
    ensures forall i :: 0 <= i < |w| && 0 <= binSums[i] && binSums[i] as real / counts[i] as real < 65535.5 ==>
              NearestHalfEven(binSums[i] as real / counts[i] as real, w[i])
  {
    var w := seq(|binSums|, i requires 0 <= i < |binSums| => Uint16Round(binSums[i] as real / counts[i] as real));
    assert forall i :: 0 <= i < |w| && 0 <= binSums[i] && binSums[i] as real / counts[i] as real < 65535.5 ==>
             NearestHalfEven(binSums[i] as real / counts[i] as real, w[i]) by {
      forall i | 0 <= i < |w| && 0 <= binSums[i] && binSums[i] as real / counts[i] as real < 65535.5
        ensures NearestHalfEven(binSums[i] as real / counts[i] as real, w[i])
      {
        var mean := binSums[i] as real / counts[i] as real;
        QuotientNonNegative(binSums[i], counts[i]);
        assert w[i] == Uint16Round(mean);
      }
    }
    w
  }

  /** A non-negative sum over a positive count is a non-negative mean. */
  lemma QuotientNonNegative(a: int, b: int)
    requires 0 <= a && 1 <= b
    ensures 0.0 <= a as real / b as real
  {
  }

  /** np.uint16(np.round(x)): a value that fits is the rounded value itself;
      the integer part wraps modulo 65536. */
  function Uint16Round(x: real): (n: int)
    ensures 0 <= n < 65536
    ensures 0.0 <= x < 65535.5 ==> NearestHalfEven(x, n) && n == RoundHalfEven(x)
  {
    var r := RoundHalfEven(x);
    if 0.0 <= x < 65535.5 then
      assert 0 <= r < 65536;
      r
    else r % 65536
  }

  /** The gap filling as a value: bucket i counts what np.unique counted for
      distance i, or 1 where that distance did not occur. */
  function GapFilled(nrs: seq<int>, vals: seq<int>): (counts: seq<int>)
    requires 0 < |nrs| == |vals| && StrictlyIncreasing(nrs) && nrs[0] >= 0
    ensures |counts| == nrs[|nrs| - 1] + 1
    ensures (forall k :: 0 <= k < |vals| ==> vals[k] >= 1) ==> forall i :: 0 <= i < |counts| ==> counts[i] >= 1
  {
    var top := nrs[|nrs| - 1];
    assert top >= 0 by {
      if |nrs| > 1 {
        assert nrs[0] < nrs[|nrs| - 1];
      }
    }
    seq(top + 1, i requires 0 <= i < top + 1 => if i in nrs then vals[IndexOf(nrs, i)] else 1)
  }

  // ---------------------------------------------------------------------
  // get_histogram_of_weight_from_point
  // ---------------------------------------------------------------------

  /** The cells of row r among its first n whose value is positive, left to right. */
  function RowPositives(row: seq<int>, r: nat, n: nat): (cells: seq<(nat, nat)>)
    requires n <= |row|
    ensures forall k :: 0 <= k < |cells| ==> cells[k].0 == r && cells[k].1 < n && row[cells[k].1] > 0
    ensures forall c :: 0 <= c < n && row[c] > 0 ==> (r, c) in cells
    ensures forall a, b :: 0 <= a < b < |cells| ==> cells[a].1 < cells[b].1
  {
    if n == 0 then []
    else
      var rest := RowPositives(row, r, n - 1);
      if row[n - 1] > 0 then
        ColumnsIncreaseStep(rest, r, n - 1);
        rest + [(r, n - 1)]
      else rest
  }

  /** A cell right of every listed one keeps the columns increasing. */
  lemma ColumnsIncreaseStep(cells: seq<(nat, nat)>, r: nat, c: nat)
    requires forall k :: 0 <= k < |cells| ==> cells[k].1 < c
    requires forall a, b :: 0 <= a < b < |cells| ==> cells[a].1 < cells[b].1
    ensures var more := cells + [(r, c)];
      forall a, b :: 0 <= a < b < |more| ==> more[a].1 < more[b].1
  {
    var more := cells + [(r, c)];
    forall a, b | 0 <= a < b < |more| ensures more[a].1 < more[b].1 {
      assert more[a] == cells[a];
      if b < |cells| {
        assert more[b] == cells[b];
      }
    }
  }

  /** Cell p comes strictly before cell q in row-major order. */
  predicate RowMajorBefore(p: (nat, nat), q: (nat, nat))
  {
    p.0 < q.0 || (p.0 == q.0 && p.1 < q.1)
  }

  /** Each cell is listed once, in row-major order. */
  predicate RowMajor(cells: seq<(nat, nat)>)
  {
    forall a, b :: 0 <= a < b < |cells| ==> RowMajorBefore(cells[a], cells[b])
  }

  /** np.where(image > 0) over the first n rows: the positive cells in
      row-major order, as (row, column). */
  function PositiveCells(image: Grid, n: nat): (cells: seq<(nat, nat)>)
    requires n <= |image|
    ensures forall k :: 0 <= k < |cells| ==>
              cells[k].0 < n && cells[k].1 < |image[cells[k].0]| && image[cells[k].0][cells[k].1] > 0
    ensures forall r, c :: 0 <= r < n && 0 <= c < |image[r]| && image[r][c] > 0 ==> (r, c) in cells
    ensures RowMajor(cells)
  {
    if n == 0 then []
    else
      var rest := PositiveCells(image, n - 1);
      var row := RowPositives(image[n - 1], n - 1, |image[n - 1]|);
      PositiveCellsListed(image, n, rest, row);
      PositiveCellsComplete(image, n - 1, rest, row);
      PositiveCellsOrdered(n - 1, rest, row);
      rest + row
  }

  /** The cells of the rows above row r, in row-major order, then those of
      row r left to right, are in row-major order. */
  lemma PositiveCellsOrdered(r: nat, rest: seq<(nat, nat)>, row: seq<(nat, nat)>)
    requires RowMajor(rest) && forall k :: 0 <= k < |rest| ==> rest[k].0 < r
    requires forall k :: 0 <= k < |row| ==> row[k].0 == r
    requires forall a, b :: 0 <= a < b < |row| ==> row[a].1 < row[b].1
    ensures RowMajor(rest + row)
  {
    var cells := rest + row;
    forall a, b | 0 <= a < b < |cells| ensures RowMajorBefore(cells[a], cells[b]) {
      if b < |rest| {
        assert cells[a] == rest[a] && cells[b] == rest[b];
      } else if a < |rest| {
        assert cells[a] == rest[a] && cells[b] == row[b - |rest|];
      } else {
        assert cells[a] == row[a - |rest|] && cells[b] == row[b - |rest|];
      }
    }
  }

  /** Each cell listed for the rows above row n - 1, then for that row,
      is a positive cell of the first n rows. */
  lemma PositiveCellsListed(image: Grid, n: nat, rest: seq<(nat, nat)>, row: seq<(nat, nat)>)
    requires 0 < n <= |image|
    requires forall k :: 0 <= k < |rest| ==>
               rest[k].0 < n - 1 && rest[k].1 < |image[rest[k].0]| && image[rest[k].0][rest[k].1] > 0
    requires forall k :: 0 <= k < |row| ==>
               row[k].0 == n - 1 && row[k].1 < |image[n - 1]| && image[n - 1][row[k].1] > 0
    ensures var cells := rest + row;
      forall k :: 0 <= k < |cells| ==>
        cells[k].0 < n && cells[k].1 < |image[cells[k].0]| && image[cells[k].0][cells[k].1] > 0
  {
    var cells := rest + row;
    forall k | 0 <= k < |cells|
      ensures cells[k].0 < n && cells[k].1 < |image[cells[k].0]| && image[cells[k].0][cells[k].1] > 0
    {
      if k < |rest| {
        assert cells[k] == rest[k];
      } else {
        assert cells[k] == row[k - |rest|];
      }
    }
  }

  /** Every positive cell of rows 0..r is listed for the rows above row r
      or for row r. */
  lemma PositiveCellsComplete(image: Grid, r: nat, rest: seq<(nat, nat)>, row: seq<(nat, nat)>)
    requires r < |image|
    requires forall q, c :: 0 <= q < r && 0 <= c < |image[q]| && image[q][c] > 0 ==> (q, c) in rest
    requires forall c :: 0 <= c < |image[r]| && image[r][c] > 0 ==> (r, c) in row
    ensures forall q, c :: 0 <= q <= r && 0 <= c < |image[q]| && image[q][c] > 0 ==> (q, c) in rest + row
  {
    forall q, c | 0 <= q <= r && 0 <= c < |image[q]| && image[q][c] > 0
      ensures (q, c) in rest + row
    {
      if q < r {
        assert (q, c) in rest;
      } else {
        assert (q, c) in row;
      }
    }
  }

  /** A histogram exists exactly when some cell of the image is positive. */
  lemma PositiveCellsEmpty(image: Grid)
    ensures |PositiveCells(image, |image|)| == 0 <==>
              forall r, c :: 0 <= r < |image| && 0 <= c < |image[r]| ==> image[r][c] <= 0
  {
    var cells := PositiveCells(image, |image|);
    if |cells| > 0 {
      assert image[cells[0].0][cells[0].1] > 0;
    }
  }

  function Sq(x: real): real
  {
    x * x
  }

  /** np.round(np.sqrt(d2)) on exact reals: the integer nearest to the square
      root of d2, a tie going to the even neighbour. */
  function RoundSqrt(d2: real): (n: nat)
    requires d2 >= 0.0
    ensures d2 < Sq(n as real + 0.5) || (d2 == Sq(n as real + 0.5) && n % 2 == 0)
    ensures n == 0 || Sq(n as real - 0.5) < d2 || (d2 == Sq(n as real - 0.5) && n % 2 == 0)
  {
    RoundSqrtFrom(d2, 0)
  }

  /** The half-integer squares around n + 1 climb, and stay above n. */
  lemma SqHalfSteps(n: nat)
    ensures n as real <= Sq(n as real + 0.5) < Sq((n + 1) as real + 0.5)
    ensures (n + 1) as real - 0.5 == n as real + 0.5
  {
    var x := n as real + 0.5;
    assert Sq(x) == n as real * n as real + n as real + 0.25;
    assert Sq(x + 1.0) == Sq(x) + 2.0 * x + 1.0;
  }

  /** The search behind RoundSqrt, from n upwards. */
  function RoundSqrtFrom(d2: real, n: nat): (m: nat)
    requires d2 >= 0.0
    requires n == 0 || Sq(n as real - 0.5) < d2
    ensures d2 < Sq(m as real + 0.5) || (d2 == Sq(m as real + 0.5) && m % 2 == 0)
    ensures m == 0 || Sq(m as real - 0.5) < d2 || (d2 == Sq(m as real - 0.5) && m % 2 == 0)
    decreases d2.Floor + 1 - n
  {
    var hi := Sq(n as real + 0.5);
    if d2 < hi then n
    else if d2 == hi then
      if n % 2 == 0 then n
      else
        SqHalfSteps(n);
        n + 1
    else
      SqHalfSteps(n);
      RoundSqrtFrom(d2, n + 1)
  }

  /** np.uint8(np.round(np.sqrt(...))) for each listed cell: its distance to
      p (x against the column, y against the row), rounded, modulo 256. */
  function CellDistances(cells: seq<(nat, nat)>, p: Point): (ds: seq<int>)
    ensures |ds| == |cells| && forall k :: 0 <= k < |ds| ==> 0 <= ds[k] < 256
  {
    seq(|cells|, k requires 0 <= k < |cells| => RoundSqrt(SqDist(cells[k].1, cells[k].0, p)) % 256)
  }

  /** np.uint32(image[image > 0]): the listed cells' values modulo 2^32. */
  function CellIntensities(image: Grid, cells: seq<(nat, nat)>): (ws: seq<int>)
    requires forall k :: 0 <= k < |cells| ==> cells[k].0 < |image| && cells[k].1 < |image[cells[k].0]|
    ensures |ws| == |cells|
  {
    seq(|cells|, k requires 0 <= k < |cells| => image[cells[k].0][cells[k].1] % 0x1_0000_0000)
  }

  /** How often v occurs in ds. */
  function Count(ds: seq<int>, v: int): nat
  {
    if |ds| == 0 then 0 else Count(ds[..|ds| - 1], v) + (if ds[|ds| - 1] == v then 1 else 0)
  }

  lemma {:induction false} CountPositive(ds: seq<int>, v: int)
    ensures Count(ds, v) > 0 <==> exists k :: 0 <= k < |ds| && ds[k] == v
  {
    if |ds| > 0 {
      var init := ds[..|ds| - 1];
      CountPositive(init, v);
      if exists k :: 0 <= k < |init| && init[k] == v {
        var k :| 0 <= k < |init| && init[k] == v;
        assert ds[k] == v;
      }
      if exists k :: 0 <= k < |ds| && ds[k] == v {
        var k :| 0 <= k < |ds| && ds[k] == v;
        if k < |init| {
          assert init[k] == v;
        }
      }
    }
  }

  /** np.unique(ds, return_counts=True) over the values v..255: the values
      that occur, ascending, each with how often it occurs. */
  function UniqueFrom(ds: seq<int>, v: nat): (u: (seq<int>, seq<int>))
    requires v <= 256
    ensures |u.0| == |u.1| && StrictlyIncreasing(u.0)
    ensures forall k :: 0 <= k < |u.1| ==> u.1[k] >= 1
    ensures forall k :: 0 <= k < |u.0| ==> v <= u.0[k] < 256 && u.1[k] == Count(ds, u.0[k]) >= 1
    ensures forall w :: v <= w < 256 && Count(ds, w) > 0 ==> w in u.0
    decreases 256 - v
  {
    if v == 256 then ([], [])
    else
      var rest := UniqueFrom(ds, v + 1);
      if Count(ds, v) > 0 then
        UniqueCons(ds, v, rest.0, rest.1);
        ([v] + rest.0, [Count(ds, v)] + rest.1)
      else rest
  }

  /** Value v, when it occurs, goes in front of the values above it. */
  lemma UniqueCons(ds: seq<int>, v: nat, vals: seq<int>, counts: seq<int>)
    requires v < 256 && Count(ds, v) > 0
    requires |vals| == |counts| && StrictlyIncreasing(vals)
    requires forall k :: 0 <= k < |vals| ==> v + 1 <= vals[k] < 256 && counts[k] == Count(ds, vals[k]) >= 1
    requires forall w :: v + 1 <= w < 256 && Count(ds, w) > 0 ==> w in vals
    ensures var u := ([v] + vals, [Count(ds, v)] + counts);
      && StrictlyIncreasing(u.0)
      && (forall k :: 0 <= k < |u.1| ==> u.1[k] >= 1)
      && (forall k :: 0 <= k < |u.0| ==> v <= u.0[k] < 256 && u.1[k] == Count(ds, u.0[k]) >= 1)
      && (forall w :: v <= w < 256 && Count(ds, w) > 0 ==> w in u.0)
  {
    ConsIncreasing(v, vals);
    var u := ([v] + vals, [Count(ds, v)] + counts);
    forall k | 0 <= k < |u.0| ensures v <= u.0[k] < 256 && u.1[k] == Count(ds, u.0[k]) >= 1 {
      if k > 0 {
        assert u.0[k] == vals[k - 1] && u.1[k] == counts[k - 1];
      }
    }
  }

  lemma ConsIncreasing(v: int, s: seq<int>)
    requires StrictlyIncreasing(s) && forall k :: 0 <= k < |s| ==> v < s[k]
    ensures StrictlyIncreasing([v] + s)
  {
    forall a, b | 0 <= a < b < |s| + 1 ensures ([v] + s)[a] < ([v] + s)[b] {
      if a > 0 {
        assert ([v] + s)[a] == s[a - 1];
      }
      assert ([v] + s)[b] == s[b - 1];
    }
  }

  function Unique(ds: seq<int>): (seq<int>, seq<int>)
  {
    UniqueFrom(ds, 0)
  }

  /** For uint8 distances, np.unique's values are not empty when ds is not,
      start at a value >= 0, and their largest bounds every distance and
      occurs among them. */
  lemma UniqueCovers(ds: seq<int>)
    requires |ds| > 0 && forall k :: 0 <= k < |ds| ==> 0 <= ds[k] < 256
    ensures var u := Unique(ds);
      && 0 < |u.0| && u.0[0] >= 0
      && (forall k :: 0 <= k < |ds| ==> ds[k] <= u.0[|u.0| - 1])
      && Count(ds, u.0[|u.0| - 1]) > 0
  {
    var u := Unique(ds);
    forall k | 0 <= k < |ds| ensures ds[k] in u.0 && ds[k] <= u.0[|u.0| - 1] {
      CountPositive(ds, ds[k]);
      var j :| 0 <= j < |u.0| && u.0[j] == ds[k];
      if j < |u.0| - 1 {
        assert u.0[j] < u.0[|u.0| - 1];
      }
    }
    assert ds[0] in u.0;
  }

  /** The bin np.histogram(ds, bins=top + 1, range=(0, top)) gives an
      integer 0 <= d <= top: bins of width top / (top + 1), the right end
      going into the last bin, and the empty range (0, 0) widened into a
      single bin. */
  function HistogramBin(d: int, top: nat): int
    requires 0 <= d <= top
  {
    if top == 0 then 0
    else
      var k := (d * (top + 1)) / top;
      if k == top + 1 then top else k
  }

  /** With one bin more than the largest value, every integer value has a
      bin of its own: the bin of d is d. */
  lemma HistogramBinIsValue(d: int, top: nat)
    requires 0 <= d <= top
    ensures HistogramBin(d, top) == d
  {
    if top > 0 {
      assert d * (top + 1) == d * top + d;
      if d < top {
        DivideExactly(d * (top + 1), top, d);
      } else {
        assert d * (top + 1) == (top + 1) * top;
        DivideExactly(d * (top + 1), top, top + 1);
      }
    }
  }

  /** q is a / b when a lies in [q * b, (q + 1) * b). */
  lemma DivideExactly(a: int, b: int, q: int)
    requires b > 0 && q * b <= a < (q + 1) * b
    ensures a / b == q
  {
    var k, r := a / b, a % b;
    assert k * b + r == a && 0 <= r < b;
    if k > q {
      ScaleBelow(q + 1, k, b);
      assert false;
    }
    if k < q {
      ScaleBelow(k + 1, q, b);
      assert false;
    }
  }

  /** The weights of the first n values of ds that fall in bin i. */
  function BinSum(ds: seq<int>, ws: seq<int>, top: nat, i: int, n: nat): int
    requires n <= |ds| == |ws| && forall k :: 0 <= k < |ds| ==> 0 <= ds[k] <= top
  {
    if n == 0 then 0
    else BinSum(ds, ws, top, i, n - 1) + (if HistogramBin(ds[n - 1], top) == i then ws[n - 1] else 0)
  }

  /** The weighted np.histogram: one summed weight per bin. */
  function BinSums(ds: seq<int>, ws: seq<int>, top: nat): (h: seq<int>)
    requires |ds| == |ws| && forall k :: 0 <= k < |ds| ==> 0 <= ds[k] <= top
    ensures |h| == top + 1
  {
    seq(top + 1, i requires 0 <= i < top + 1 => BinSum(ds, ws, top, i, |ds|))
  }

  /** The weights of the first n values of ds equal to v. */
  function SumAt(ds: seq<int>, ws: seq<int>, v: int, n: nat): int
    requires n <= |ds| == |ws|
  {
    if n == 0 then 0 else SumAt(ds, ws, v, n - 1) + (if ds[n - 1] == v then ws[n - 1] else 0)
  }

  lemma {:induction false} BinSumIsSumAt(ds: seq<int>, ws: seq<int>, top: nat, i: int, n: nat)
    requires n <= |ds| == |ws| && forall k :: 0 <= k < |ds| ==> 0 <= ds[k] <= top
    ensures BinSum(ds, ws, top, i, n) == SumAt(ds, ws, i, n)
  {
    if n > 0 {
      BinSumIsSumAt(ds, ws, top, i, n - 1);
      HistogramBinIsValue(ds[n - 1], top);
    }
  }

  /** get_histogram_of_weight_from_point: the positive cells of the image,
      their rounded distances to p and their intensities make the histogram.
      None where `max(nrs)` raises because no cell is positive. */
  function HistogramOfWeight(image: Grid, p: Point): (h: Option<seq<int>>)
    ensures h.None? <==> |PositiveCells(image, |image|)| == 0
    ensures h.Some? ==> |h.value| > 0
  {
    var cells := PositiveCells(image, |image|);
    if |cells| == 0 then None
    else Some(HistogramOfDistances(CellDistances(cells, p), CellIntensities(image, cells)))
  }

  /** The histogram of uint8 distances ds weighted by ws: np.unique, the gap
      filling, np.histogram with one bin per bucket and the rounded division. */
  function HistogramOfDistances(ds: seq<int>, ws: seq<int>): (h: seq<int>)
    requires 0 < |ds| == |ws| && forall k :: 0 <= k < |ds| ==> 0 <= ds[k] < 256
    ensures |h| > 0
  {
    var u := Unique(ds);
    UniqueCovers(ds);
    var sums := BinSums(ds, ws, u.0[|u.0| - 1]);
    var counts := GapFilled(u.0, u.1);
    GapFilledPositive(ds);
    WeightHistogram(sums, counts)
  }

  /** After the gap filling every bucket up to the largest distance has a
      count of at least 1. */
  lemma GapFilledPositive(ds: seq<int>)
    requires |ds| > 0 && forall k :: 0 <= k < |ds| ==> 0 <= ds[k] < 256
    ensures var u := Unique(ds);
      0 < |u.0| && u.0[0] >= 0 &&
      var counts := GapFilled(u.0, u.1);
      |counts| == u.0[|u.0| - 1] + 1 && forall i :: 0 <= i < |counts| ==> counts[i] >= 1
  {
    UniqueShape(ds);
  }

  /** What the gap filling needs of np.unique's result. */
  lemma UniqueShape(ds: seq<int>)
    requires |ds| > 0 && forall k :: 0 <= k < |ds| ==> 0 <= ds[k] < 256
    ensures var u := Unique(ds);
      0 < |u.0| == |u.1| && u.0[0] >= 0 && StrictlyIncreasing(u.0) &&
      forall k :: 0 <= k < |u.1| ==> u.1[k] >= 1
  {
    UniqueCovers(ds);
  }

  /** There is one bucket per distance from 0 to the largest. */
  lemma HistogramCoversDistances(ds: seq<int>, ws: seq<int>)
    requires 0 < |ds| == |ws| && forall k :: 0 <= k < |ds| ==> 0 <= ds[k] < 256
    ensures var h := HistogramOfDistances(ds, ws);
      && (forall k :: 0 <= k < |ds| ==> ds[k] < |h|)
      && (exists k :: 0 <= k < |ds| && ds[k] == |h| - 1)
  {
    var u := Unique(ds);
    UniqueCovers(ds);
    var top := u.0[|u.0| - 1];
    assert |HistogramOfDistances(ds, ws)| == |BinSums(ds, ws, top)| == top + 1;
    CountPositive(ds, top);
  }

  /** Each bucket is the mean weight at that distance (0 where no value
      has it), rounded into a uint16. */
  lemma HistogramIsMeanIntensity(ds: seq<int>, ws: seq<int>)
    requires 0 < |ds| == |ws| && forall k :: 0 <= k < |ds| ==> 0 <= ds[k] < 256
    ensures var h := HistogramOfDistances(ds, ws);
      forall i :: 0 <= i < |h| ==>
        h[i] == Uint16Round(SumAt(ds, ws, i, |ds|) as real /
                            (if Count(ds, i) > 0 then Count(ds, i) else 1) as real)
  {
    var u := Unique(ds);
    UniqueCovers(ds);
    var top := u.0[|u.0| - 1];
    var sums := BinSums(ds, ws, top);
    var counts := GapFilled(u.0, u.1);
    GapFilledCounts(ds);
    BinSumsAreSums(ds, ws, top);
    MeanPerBucket(ds, ws, sums, counts);
    assert HistogramOfDistances(ds, ws) == WeightHistogram(sums, counts);
  }

  /** Bucket i of np.histogram sums the weights at distance i. */
  lemma BinSumsAreSums(ds: seq<int>, ws: seq<int>, top: nat)
    requires |ds| == |ws| && forall k :: 0 <= k < |ds| ==> 0 <= ds[k] <= top
    ensures var sums := BinSums(ds, ws, top);
      forall i :: 0 <= i < |sums| ==> sums[i] == SumAt(ds, ws, i, |ds|)
  {
    forall i | 0 <= i < top + 1 ensures BinSums(ds, ws, top)[i] == SumAt(ds, ws, i, |ds|) {
      BinSumIsSumAt(ds, ws, top, i, |ds|);
    }
  }

  /** The uint16 mean of each bucket, once its sum and count are known. */
  lemma MeanPerBucket(ds: seq<int>, ws: seq<int>, sums: seq<int>, counts: seq<int>)
    requires |ds| == |ws| && |sums| == |counts|
    requires forall i :: 0 <= i < |sums| ==> sums[i] == SumAt(ds, ws, i, |ds|)
    requires forall i :: 0 <= i < |counts| ==> counts[i] == if Count(ds, i) > 0 then Count(ds, i) else 1
    ensures forall i :: 0 <= i < |counts| ==> counts[i] >= 1
    ensures var h := WeightHistogram(sums, counts);
      forall i :: 0 <= i < |h| ==>
        h[i] == Uint16Round(SumAt(ds, ws, i, |ds|) as real /
                            (if Count(ds, i) > 0 then Count(ds, i) else 1) as real)
  {
    var h := WeightHistogram(sums, counts);
    forall i | 0 <= i < |h|
      ensures h[i] == Uint16Round(SumAt(ds, ws, i, |ds|) as real /
                                  (if Count(ds, i) > 0 then Count(ds, i) else 1) as real)
    {
      assert h[i] == Uint16Round(sums[i] as real / counts[i] as real);
    }
  }

  /** The gap-filled counts of uint8 distances: each distance's count, or 1
      where it does not occur. */
  lemma GapFilledCounts(ds: seq<int>)
    requires |ds| > 0 && forall k :: 0 <= k < |ds| ==> 0 <= ds[k] < 256
    ensures var u := Unique(ds);
      && 0 < |u.0| && u.0[0] >= 0
      && var counts := GapFilled(u.0, u.1);
      && |counts| == u.0[|u.0| - 1] + 1
      && forall i :: 0 <= i < |counts| ==> counts[i] == if Count(ds, i) > 0 then Count(ds, i) else 1
  {
    var u := Unique(ds);
    UniqueCovers(ds);
    var counts := GapFilled(u.0, u.1);
    forall i | 0 <= i < |counts|
      ensures counts[i] == if Count(ds, i) > 0 then Count(ds, i) else 1
    {
      if i in u.0 {
        assert u.0[IndexOf(u.0, i)] == i;
      } else {
        assert u.0[|u.0| - 1] < 256;
      }
    }
  }

  /** get_histogram_of_weight_from_point step by step: the positive cells,
      their distances and intensities, then the histogram. */
  method GetHistogramOfWeightFromPoint(image: Grid, p: Point) returns (h: Option<seq<int>>)
    ensures h == HistogramOfWeight(image, p)
  {
    var cells := PositiveCells(image, |image|);
    if |cells| == 0 {
      return None;
    }
    var hist := WeightHistogramOfDistances(CellDistances(cells, p), CellIntensities(image, cells));
    h := Some(hist);
  }

  /** np.unique, the gap-filling loop, the binning and the division. */
  method WeightHistogramOfDistances(ds: seq<int>, ws: seq<int>) returns (h: seq<int>)
    requires 0 < |ds| == |ws| && forall k :: 0 <= k < |ds| ==> 0 <= ds[k] < 256
    ensures h == HistogramOfDistances(ds, ws)
  {
    var u := Unique(ds);
    UniqueCovers(ds);
    var nrs, vals := FillHistogramGaps(u.0, u.1);
    var top := u.0[|u.0| - 1];
    h := WeightHistogram(BinSums(ds, ws, top), vals);
  }

  // ---------------------------------------------------------------------
  // get_distance_to_mask
  // ---------------------------------------------------------------------

  /** Squared distance from cell (row r, column c) to p: x meets the column, y the row. */
  function SqDist(c: int, r: int, p: Point): (d: real)
    ensures d >= 0.0
  {
    (c as real - p.x) * (c as real - p.x) + (r as real - p.y) * (r as real - p.y)
  }

  predicate HasZeroCell(e: Grid)
  {
    exists r, c | 0 <= r < |e| && 0 <= c < |e[r]| :: e[r][c] == 0
  }

  /** d is the smallest squared distance from p to a 0 cell of e. */
  predicate IsMinZeroDistance(e: Grid, p: Point, d: real)
  {
    (exists r, c | 0 <= r < |e| && 0 <= c < |e[r]| :: e[r][c] == 0 && SqDist(c, r, p) == d) &&
    (forall r, c | 0 <= r < |e| && 0 <= c < |e[r]| :: e[r][c] == 0 ==> d <= SqDist(c, r, p))
  }

  /** Some 0 cell of e lies within squared distance `bound` of p (strictly or not). */
  predicate ZeroCellWithin(e: Grid, p: Point, bound: real, strict: bool)
  {
    exists r, c | 0 <= r < |e| && 0 <= c < |e[r]| ::
      e[r][c] == 0 && (if strict then SqDist(c, r, p) < bound else SqDist(c, r, p) <= bound)
  }

  /** np.min over the distances of all 0 cells. */
  method MinSquaredDistanceToZero(e: Grid, p: Point) returns (d: real)
    requires HasZeroCell(e)
    ensures IsMinZeroDistance(e, p, d)
  {
    var found := false;
    ghost var wr, wc := 0, 0;
    d := 0.0;
    var r := 0;
    while r < |e|
      invariant 0 <= r <= |e|
      invariant found ==> 0 <= wr < |e| && 0 <= wc < |e[wr]| && e[wr][wc] == 0 && SqDist(wc, wr, p) == d
      invariant forall rr, cc :: 0 <= rr < r && 0 <= cc < |e[rr]| && e[rr][cc] == 0 ==> found && d <= SqDist(cc, rr, p)
    {
      var c := 0;
      while c < |e[r]|
        invariant 0 <= c <= |e[r]|
        invariant found ==> 0 <= wr < |e| && 0 <= wc < |e[wr]| && e[wr][wc] == 0 && SqDist(wc, wr, p) == d
        invariant forall rr, cc :: 0 <= rr < r && 0 <= cc < |e[rr]| && e[rr][cc] == 0 ==> found && d <= SqDist(cc, rr, p)
        invariant forall cc :: 0 <= cc < c && e[r][cc] == 0 ==> found && d <= SqDist(cc, r, p)
      {
        if e[r][c] == 0 {
          var dc := SqDist(c, r, p);
          if !found || dc < d {
            d := dc;
            wr, wc := r, c;
          }
          found := true;
        }
        c := c + 1;
      }
      r := r + 1;
    }
  }

  /** get_distance_to_mask: pads the mask with a zero ring (so a 0 cell
      always exists), moves the caller's point by +1 in both coordinates in
      place, and returns the smallest squared distance to a 0 cell. */
  method GetDistanceToMask(imageMask: Grid, cols: nat, point: array<real>) returns (dist2: real)
    requires point.Length == 2 && IsGrid(imageMask, |imageMask|, cols)
    modifies point
    ensures point[0] == old(point[0]) + 1.0 && point[1] == old(point[1]) + 1.0
    ensures IsMinZeroDistance(Pad(imageMask, cols), Point(point[0], point[1]), dist2)
    ensures dist2 >= 0.0
  {
    var e := Pad(imageMask, cols);
    point[0] := point[0] + 1.0;
    point[1] := point[1] + 1.0;
    assert e[0][0] == 0;
    dist2 := MinSquaredDistanceToZero(e, Point(point[0], point[1]));
  }

  /** A threshold test on the minimum is a test for some 0 cell within it. */
  lemma MinDistanceThreshold(e: Grid, p: Point, d: real, bound: real)
    requires IsMinZeroDistance(e, p, d)
    ensures d < bound <==> ZeroCellWithin(e, p, bound, true)
    ensures d <= bound <==> ZeroCellWithin(e, p, bound, false)
  {
    var r, c :| 0 <= r < |e| && 0 <= c < |e[r]| && e[r][c] == 0 && SqDist(c, r, p) == d;
    if ZeroCellWithin(e, p, bound, true) {
      var r2, c2 :| 0 <= r2 < |e| && 0 <= c2 < |e[r2]| && e[r2][c2] == 0 && SqDist(c2, r2, p) < bound;
      assert d <= SqDist(c2, r2, p);
    }
    if ZeroCellWithin(e, p, bound, false) {
      var r2, c2 :| 0 <= r2 < |e| && 0 <= c2 < |e[r2]| && e[r2][c2] == 0 && SqDist(c2, r2, p) <= bound;
      assert d <= SqDist(c2, r2, p);
    }
  }

  // ---------------------------------------------------------------------
  // sum_image_values_on_mask
  // ---------------------------------------------------------------------

  /** `image` has a value at every cell of the mask's rows x cols shape. */
  predicate Covers(image: Grid, rows: nat, cols: nat)
  {
    |image| >= rows && forall r :: 0 <= r < rows ==> |image[r]| >= cols
  }

  function MaskedRowSum(imageRow: seq<int>, maskRow: seq<int>, n: nat, zeros: bool): int
    requires n <= |imageRow| && n <= |maskRow|
  {
    if n == 0 then 0
    else MaskedRowSum(imageRow, maskRow, n - 1, zeros) +
         (if (maskRow[n - 1] == 0) == zeros then imageRow[n - 1] else 0)
  }

  /** The image values over the first `rows` rows of the mask's shape whose
      mask cell is 0 (`zeros`) or non-zero (`!zeros`). */
  function MaskedSum(image: Grid, mask: Grid, rows: nat, cols: nat, zeros: bool): int
    requires rows <= |mask| && IsGrid(mask, |mask|, cols) && Covers(image, |mask|, cols)
  {
    if rows == 0 then 0
    else MaskedSum(image, mask, rows - 1, cols, zeros) + MaskedRowSum(image[rows - 1], mask[rows - 1], cols, zeros)
  }

  function RowTotal(row: seq<int>, n: nat): int
    requires n <= |row|
  {
    if n == 0 then 0 else RowTotal(row, n - 1) + row[n - 1]
  }

  /** The image total over the first `rows` x `cols` cells. */
  function RegionTotal(image: Grid, rows: nat, cols: nat): int
    requires Covers(image, rows, cols)
  {
    if rows == 0 then 0 else RegionTotal(image, rows - 1, cols) + RowTotal(image[rows - 1], cols)
  }

  lemma {:induction false} RowPartition(imageRow: seq<int>, maskRow: seq<int>, n: nat)
    requires n <= |imageRow| && n <= |maskRow|
    ensures MaskedRowSum(imageRow, maskRow, n, true) + MaskedRowSum(imageRow, maskRow, n, false) == RowTotal(imageRow, n)
  {
    if n > 0 {
      RowPartition(imageRow, maskRow, n - 1);
    }
  }

  /** Every cell of the mask's shape is counted once, in exactly one of the
      two sums. */
  lemma {:induction false} MaskedSumsPartition(image: Grid, mask: Grid, rows: nat, cols: nat)
    requires rows <= |mask| && IsGrid(mask, |mask|, cols) && Covers(image, |mask|, cols)
    ensures MaskedSum(image, mask, rows, cols, true) + MaskedSum(image, mask, rows, cols, false) == RegionTotal(image, rows, cols)
  {
    if rows > 0 {
      MaskedSumsPartition(image, mask, rows - 1, cols);
      RowPartition(image[rows - 1], mask[rows - 1], cols);
    }
  }

  /** sum_image_values_on_mask: walks the mask's shape and adds each image
      value to `sumZeros` when the mask cell is 0, else to `sumOnes`. */
  method SumImageValuesOnMask(image: Grid, mask: Grid, cols: nat) returns (sumZeros: int, sumOnes: int)
    requires IsGrid(mask, |mask|, cols) && Covers(image, |mask|, cols)
    ensures sumZeros == MaskedSum(image, mask, |mask|, cols, true)
    ensures sumOnes == MaskedSum(image, mask, |mask|, cols, false)
    ensures sumZeros + sumOnes == RegionTotal(image, |mask|, cols)
  {
    sumZeros, sumOnes := 0, 0;
    var i := 0;
    while i < |mask|
      invariant 0 <= i <= |mask|
      invariant sumZeros == MaskedSum(image, mask, i, cols, true)
      invariant sumOnes == MaskedSum(image, mask, i, cols, false)
    {
      var j := 0;
      while j < cols
        invariant 0 <= j <= cols
        invariant sumZeros == MaskedSum(image, mask, i, cols, true) + MaskedRowSum(image[i], mask[i], j, true)
        invariant sumOnes == MaskedSum(image, mask, i, cols, false) + MaskedRowSum(image[i], mask[i], j, false)
      {
        if mask[i][j] == 0 {
          sumZeros := sumZeros + image[i][j];
        } else {
          sumOnes := sumOnes + image[i][j];
        }
        j := j + 1;
      }
      i := i + 1;
    }
    MaskedSumsPartition(image, mask, |mask|, cols);
  }

  // ---------------------------------------------------------------------
  // check_item_on_edge
  // ---------------------------------------------------------------------

  /** np.uint8(image): every value taken modulo 256. */
  function Wrap8(g: Grid): (w: Grid)
    ensures |w| == |g|
    ensures forall r :: 0 <= r < |g| ==> |w[r]| == |g[r]|
    ensures forall r, c :: 0 <= r < |g| && 0 <= c < |g[r]| ==> 0 <= w[r][c] < 256 && (g[r][c] - w[r][c]) % 256 == 0
  {
    seq(|g|, r requires 0 <= r < |g| => seq(|g[r]|, c requires 0 <= c < |g[r]| => g[r][c] % 256))
  }

  /** Row-major positions of cells in an earlier row come first. */
  lemma RowMajorEarlierRow(r: nat, c: nat, row: nat, col: nat, cols: nat)
    requires c < cols && r < row
    ensures r * cols + c < row * cols + col
  {
    assert (r + 1) * cols <= row * cols;
  }

  lemma RowMajorRowBound(row: nat, col: nat, cols: nat, n: nat)
    requires row * cols + col < n * cols
    ensures row < n
  {
    if row >= n {
      ScaleBelow(n, row, cols);
      assert false;
    }
  }

  /** The first maximum of Flatten(e), at k == row * cols + col, is the first
      maximum of e in row-major order. */
  lemma MaxCellFacts(e: Grid, cols: nat, k: nat, row: nat, col: nat)
    requires |e| > 0 && cols > 0 && IsGrid(e, |e|, cols)
    requires |Flatten(e)| == |e| * cols && k < |Flatten(e)|
    requires k == row * cols + col && col < cols
    requires forall i :: 0 <= i < |Flatten(e)| ==> Flatten(e)[i] <= Flatten(e)[k]
    requires forall i :: 0 <= i < k ==> Flatten(e)[i] < Flatten(e)[k]
    ensures row < |e|
    ensures forall r, c :: 0 <= r < |e| && 0 <= c < cols ==> e[r][c] <= e[row][col]
    ensures forall r, c :: 0 <= r < |e| && 0 <= c < cols && (r < row || (r == row && c < col)) ==>
              e[r][c] < e[row][col]
  {
    RowMajorRowBound(row, col, cols, |e|);
    FlattenAt(e, cols, row, col);
    forall r, c | 0 <= r < |e| && 0 <= c < cols
      ensures e[r][c] <= e[row][col]
      ensures (r < row || (r == row && c < col)) ==> e[r][c] < e[row][col]
    {
      FlattenAt(e, cols, r, c);
      if r < row {
        RowMajorEarlierRow(r, c, row, col, cols);
      }
    }
  }

  /** np.unravel_index(np.argmax(e), e.shape) on the 18 x 18 padded image:
      the first maximum in row-major order. */
  function MaxCell(e: Grid): (rc: (nat, nat))
    requires IsGrid(e, 18, 18)
    ensures rc.0 < 18 && rc.1 < 18
    ensures forall r, c :: 0 <= r < 18 && 0 <= c < 18 ==> e[r][c] <= e[rc.0][rc.1]
    ensures forall r, c :: 0 <= r < 18 && 0 <= c < 18 && (r < rc.0 || (r == rc.0 && c < rc.1)) ==>
              e[r][c] < e[rc.0][rc.1]
  {
    FlattenLength(e, 18);
    var f := Flatten(e);
    var k := ArgMax(f);
    var row, col := k / 18, k % 18;
    MaxCellFacts(e, 18, k, row, col);
    (row, col)
  }

  /** Test 1: the first maximum of the padded uint8 image lies on a 0 of the
      single-border mask. */
  predicate MaxOffBorderedMask(image: Grid, masks: ImageMask)
    requires IsGrid(image, 16, 16) && ValidImageMask(masks)
  {
    var e := Pad(Wrap8(image), 16);
    var rc := MaxCell(e);
    masks.eBorderedMask[rc.0][rc.1] == 0
  }

  /** The two distance tests against the padded stretched mask, on squared
      distances: `dist < 5.0`, then `dist <= peak + 2.0`, where the peak is
      found with `can_ret_none` false and so is never negative. */
  predicate NearBorder(stretchedMask: Grid, cen: Point, peak: real)
    requires IsGrid(stretchedMask, |stretchedMask|, 24)
  {
    var es := Pad(stretchedMask, 24);
    var p := Point(cen.x + 1.0, cen.y + 1.0);
    ZeroCellWithin(es, p, 25.0, true) || ZeroCellWithin(es, p, (peak + 2.0) * (peak + 2.0), false)
  }

  /** The outer 2-cell ring of the padded image holds at least as much as
      the inside. */
  predicate HeavyRing(image: Grid, masks: ImageMask)
    requires IsGrid(image, 16, 16) && ValidImageMask(masks)
  {
    var e := Pad(Wrap8(image), 16);
    MaskedSum(e, masks.e2BorderedMask, 18, 18, true) >= MaskedSum(e, masks.e2BorderedMask, 18, 18, false)
  }

  /** The tests after the first one: centroid of the stretched image, its
      histogram peak, the distance to the table border, the ring weight. */
  function EdgeByCentroid(image: Grid, masks: ImageMask, stretch: (Grid, real, real) -> Grid): Option<bool>
    requires IsGrid(image, 16, 16) && ValidImageMask(masks)
  {
    var sImage := stretch(Wrap8(image), 1.5, 2.5);
    match GetImageCentroid(sImage, FloatOutput)
    case None => None
    case Some(cen) =>
      match HistogramOfWeight(sImage, cen)
      case None => None
      case Some(hist) =>
        if NearBorder(masks.stretchedMask, cen, FindHistogramPeak(hist, false)) then Some(true)
        else Some(HeavyRing(image, masks))
  }

  /** check_item_on_edge as a decision on its inputs; None where the Python
      raises (zero image mass in the centroid, no positive cell for the
      histogram). */
  function OnEdge(image: Grid, masks: ImageMask, stretch: (Grid, real, real) -> Grid): Option<bool>
    requires IsGrid(image, 16, 16) && ValidImageMask(masks)
  {
    if MaxOffBorderedMask(image, masks) then Some(true)
    else EdgeByCentroid(image, masks, stretch)
  }

  /** check_item_on_edge, step by step as the Python runs it. */
  method CheckItemOnEdge(image: Grid, masks: ImageMask, stretch: (Grid, real, real) -> Grid) returns (onEdge: Option<bool>)
    requires IsGrid(image, 16, 16) && ValidImageMask(masks)
    ensures onEdge == OnEdge(image, masks, stretch)
  {
    var img := Wrap8(image);
    var e := Pad(img, 16);
    var idx := MaxCell(e);
    if masks.eBorderedMask[idx.0][idx.1] == 0 {
      return Some(true);
    }
    assert !MaxOffBorderedMask(image, masks);
    onEdge := CheckByCentroid(image, masks, stretch);
  }

  /** The part of check_item_on_edge after the first test, step by step. */
  method CheckByCentroid(image: Grid, masks: ImageMask, stretch: (Grid, real, real) -> Grid)
    returns (onEdge: Option<bool>)
    requires IsGrid(image, 16, 16) && ValidImageMask(masks)
    ensures onEdge == EdgeByCentroid(image, masks, stretch)
  {
    var sImage := stretch(Wrap8(image), 1.5, 2.5);
    var centroid := GetImageCentroid(sImage, FloatOutput);
    if centroid.None? {
      return None;
    }
    var hist := GetHistogramOfWeightFromPoint(sImage, centroid.value);
    if hist.None? {
      return None;
    }
    assert HistogramOfWeight(sImage, centroid.value) == hist;
    onEdge := NearOrRing(image, masks, centroid.value, hist.value);
  }

  /** The steps of check_item_on_edge after the histogram: the peak, the two
      distance tests, and the weight of the ring outside the bordered mask. */
  method NearOrRing(image: Grid, masks: ImageMask, cen: Point, hist: seq<int>) returns (onEdge: Option<bool>)
    requires IsGrid(image, 16, 16) && ValidImageMask(masks) && |hist| > 0
    ensures onEdge == if NearBorder(masks.stretchedMask, cen, FindHistogramPeak(hist, false)) then Some(true)
                      else Some(HeavyRing(image, masks))
  {
    var peak := FindHistogramPeak(hist, false);
    var near := DistanceTests(masks.stretchedMask, cen, peak);
    if near {
      return Some(true);
    }
    var borderWeight, centerWeight := SumImageValuesOnMask(Pad(Wrap8(image), 16), masks.e2BorderedMask, 18);
    onEdge := Some(borderWeight >= centerWeight);
  }

  /** get_distance_to_mask on the caller's centroid, then the two threshold tests. */
  method DistanceTests(stretchedMask: Grid, cen: Point, peak: real) returns (near: bool)
    requires IsGrid(stretchedMask, |stretchedMask|, 24)
    ensures near == NearBorder(stretchedMask, cen, peak)
  {
    var point := new real[2];
    point[0], point[1] := cen.x, cen.y;
    var distToBorder := GetDistanceToMask(stretchedMask, 24, point);
    var es := Pad(stretchedMask, 24);
    var p := Point(cen.x + 1.0, cen.y + 1.0);
    assert p == Point(point[0], point[1]);
    MinDistanceThreshold(es, p, distToBorder, 25.0);
    MinDistanceThreshold(es, p, distToBorder, (peak + 2.0) * (peak + 2.0));
    near := distToBorder < 25.0 || distToBorder <= (peak + 2.0) * (peak + 2.0);
  }

  /** An image that is 0 after the uint8 cast (all zeros, or only multiples
      of 256) has its first maximum at the padded corner, which every
      single-border mask clears: the item is reported on the edge. */
  lemma OnEdgeBlankImage(image: Grid, fill: Grid, stretchedFill: Grid,
                         stretch: (Grid, real, real) -> Grid)
    requires IsGrid(image, 16, 16)
    requires forall r, c :: 0 <= r < 16 && 0 <= c < 16 ==> image[r][c] % 256 == 0
    requires IsGrid(fill, 16, 16) && IsGrid(stretchedFill, 24, 40)
    ensures OnEdge(image, BuildImageMask(fill, stretchedFill), stretch) == Some(true)
  {
    var masks := BuildImageMask(fill, stretchedFill);
    ImageMaskLayout(fill, stretchedFill);
    var e := Pad(Wrap8(image), 16);
    var rc := MaxCell(e);
    forall r, c | 0 <= r < 18 && 0 <= c < 18 ensures e[r][c] == 0 {
      if 1 <= r <= 16 && 1 <= c <= 16 {
        assert e[r][c] == Wrap8(image)[r - 1][c - 1];
      }
    }
    assert rc == (0, 0);
    assert masks.eMask[0][0] == 0;
  }

  // ---------------------------------------------------------------------
  // find_sides_of_table
  // ---------------------------------------------------------------------

  /** mask_image[:, -1] */
  function LastColumn(mask: Grid, cols: nat): (col: seq<int>)
    requires cols >= 1 && IsGrid(mask, |mask|, cols)
    ensures |col| == |mask| && forall r :: 0 <= r < |mask| ==> col[r] == mask[r][cols - 1]
  {
    seq(|mask|, r requires 0 <= r < |mask| => mask[r][cols - 1])
  }

  /** np.r_[0, col, 0][k] */
  function Framed(col: seq<int>, k: int): int
  {
    if 1 <= k <= |col| then col[k - 1] else 0
  }

  /** np.argwhere(np.diff(np.r_[0, col, 0])), the indices below d. */
  function TransitionsBelow(col: seq<int>, d: nat): seq<nat>
    requires d <= |col| + 1
  {
    if d == 0 then []
    else TransitionsBelow(col, d - 1) + (if Framed(col, d) != Framed(col, d - 1) then [d - 1] else [])
  }

  function Transitions(col: seq<int>): seq<nat>
  {
    TransitionsBelow(col, |col| + 1)
  }

  /** The value find_sides_of_table computes from the transitions: the first
      pair (start, end) as [start + 1, end - 2]; None where reshape(-1, 2)
      or side_edges[0] raises. */
  function TableSides(col: seq<int>): Option<(int, int)>
  {
    var t := Transitions(col);
    if |t| % 2 != 0 || |t| == 0 then None else Some((t[0] as int + 1, t[1] as int - 2))
  }

  /** find_sides_of_table on the last column of the mask; `inconsistent`
      is the warning for more than one run. */
  method FindSidesOfTable(mask: Grid, cols: nat) returns (sides: Option<(int, int)>, inconsistent: bool)
    requires cols >= 1 && IsGrid(mask, |mask|, cols)
    ensures sides == TableSides(LastColumn(mask, cols))
    ensures inconsistent <==> sides.Some? && |Transitions(LastColumn(mask, cols))| > 2
  {
    var lastCol := LastColumn(mask, cols);
    var sideEdges: seq<nat> := [];
    var k := 0;
    while k < |lastCol| + 1
      invariant 0 <= k <= |lastCol| + 1
      invariant sideEdges == TransitionsBelow(lastCol, k)
    {
      var before := if k == 0 then 0 else lastCol[k - 1];
      var after := if k == |lastCol| then 0 else lastCol[k];
      if after != before {
        sideEdges := sideEdges + [k];
      }
      k := k + 1;
    }
    if |sideEdges| % 2 != 0 || |sideEdges| == 0 {
      return None, false;
    }
    inconsistent := |sideEdges| > 2;
    var edge0: int, edge1: int := sideEdges[0], sideEdges[1];
    edge1 := edge1 - 1;
    edge0 := edge0 + 1;
    edge1 := edge1 - 1;
    sides := Some((edge0, edge1));
  }

  predicate IsBinaryColumn(col: seq<int>)
  {
    forall k :: 0 <= k < |col| ==> col[k] == 0 || col[k] == 1
  }

  lemma {:induction false} TransitionsParity(col: seq<int>, d: nat)
    requires IsBinaryColumn(col) && d <= |col| + 1
    ensures |TransitionsBelow(col, d)| % 2 == Framed(col, d)
  {
    if d > 0 {
      TransitionsParity(col, d - 1);
    }
  }

  /** The transitions found below d1 begin those found below d2. */
  lemma {:induction false} TransitionsPrefix(col: seq<int>, d1: nat, d2: nat)
    requires d1 <= d2 <= |col| + 1
    ensures TransitionsBelow(col, d1) <= TransitionsBelow(col, d2)
    decreases d2 - d1
  {
    if d1 < d2 {
      TransitionsPrefix(col, d1, d2 - 1);
    }
  }

  /** Scanning further never loses transitions. */
  lemma {:induction false} TransitionsGrow(col: seq<int>, d1: nat, d2: nat)
    requires d1 <= d2 <= |col| + 1
    ensures |TransitionsBelow(col, d1)| <= |TransitionsBelow(col, d2)|
    decreases d2 - d1
  {
    if d1 < d2 {
      TransitionsGrow(col, d1, d2 - 1);
    }
  }

  /** The transitions found from d1 on lie at or after d1. */
  lemma {:induction false} TransitionsTail(col: seq<int>, d1: nat, d2: nat)
    requires d1 <= d2 <= |col| + 1
    ensures forall i :: |TransitionsBelow(col, d1)| <= i < |TransitionsBelow(col, d2)| ==>
              d1 <= TransitionsBelow(col, d2)[i] < d2 &&
              Framed(col, TransitionsBelow(col, d2)[i] + 1) != Framed(col, TransitionsBelow(col, d2)[i])
    decreases d2 - d1
  {
    if d1 < d2 {
      TransitionsTail(col, d1, d2 - 1);
    }
  }

  /** Transitions of a column whose first run of 1s spans rows s..e. */
  lemma {:induction false} TransitionsOfRun(col: seq<int>, s: nat, e: nat, d: nat)
    requires s <= e < |col| && d <= e + 2
    requires forall k :: 0 <= k < s ==> col[k] == 0
    requires forall k :: s <= k <= e ==> col[k] == 1
    requires e + 1 == |col| || col[e + 1] == 0
    ensures TransitionsBelow(col, d) == if d <= s then [] else if d <= e + 1 then [s] else [s, e + 1]
  {
    if d > 0 {
      TransitionsOfRun(col, s, e, d - 1);
    }
  }

  /** The first run of 1s in a 0/1 column, rows s..e inclusive, gives the
      sides [s + 1, e - 1]; the warning fires exactly when another 1 follows
      the run. */
  lemma TableSidesOfFirstRun(col: seq<int>, s: nat, e: nat)
    requires IsBinaryColumn(col)
    requires s <= e < |col|
    requires forall k :: 0 <= k < s ==> col[k] == 0
    requires forall k :: s <= k <= e ==> col[k] == 1
    requires e + 1 == |col| || col[e + 1] == 0
    ensures TableSides(col) == Some((s + 1, e - 1))
    ensures |Transitions(col)| > 2 <==> exists k :: e + 1 < k < |col| && col[k] == 1
  {
    FirstRunTransitions(col, s, e);
    if exists k :: e + 1 < k < |col| && col[k] == 1 {
      var k :| e + 1 < k < |col| && col[k] == 1;
      LaterOneWarns(col, s, e, k);
    }
    if |Transitions(col)| > 2 {
      WarningHasLaterOne(col, s, e);
    }
  }

  /** The first two transitions bound the first run, and their count is even. */
  lemma FirstRunTransitions(col: seq<int>, s: nat, e: nat)
    requires IsBinaryColumn(col)
    requires s <= e < |col|
    requires forall k :: 0 <= k < s ==> col[k] == 0
    requires forall k :: s <= k <= e ==> col[k] == 1
    requires e + 1 == |col| || col[e + 1] == 0
    ensures |Transitions(col)| >= 2 && |Transitions(col)| % 2 == 0
    ensures Transitions(col)[0] == s && Transitions(col)[1] == e + 1
  {
    var t, p := Transitions(col), TransitionsBelow(col, e + 2);
    TransitionsOfRun(col, s, e, e + 2);
    assert p == [s, e + 1];
    TransitionsPrefix(col, e + 2, |col| + 1);
    assert t[..2] == p;
    assert t[0] == t[..2][0] && t[1] == t[..2][1];
    TransitionsParity(col, |col| + 1);
  }

  /** A 1 after the first run adds transitions beyond the first pair. */
  lemma LaterOneWarns(col: seq<int>, s: nat, e: nat, k: nat)
    requires IsBinaryColumn(col)
    requires s <= e < |col|
    requires forall k :: 0 <= k < s ==> col[k] == 0
    requires forall k :: s <= k <= e ==> col[k] == 1
    requires e + 1 == |col| || col[e + 1] == 0
    requires e + 1 < k < |col| && col[k] == 1
    ensures |Transitions(col)| > 2
  {
    RunHasTwo(col, s, e);
    OneAfterTwo(col, e + 2, k);
  }

  /** A 1 at row k, once two transitions lie below d <= k, makes a third. */
  lemma OneAfterTwo(col: seq<int>, d: nat, k: nat)
    requires IsBinaryColumn(col)
    requires d <= k < |col| && col[k] == 1
    requires |TransitionsBelow(col, d)| == 2
    ensures |Transitions(col)| > 2
  {
    TransitionsGrow(col, d, k + 1);
    OddBelowOne(col, k);
    TransitionsGrow(col, k + 1, |col| + 1);
  }

  /** Scanning just past the first run of 1s has found its start and its end. */
  lemma RunHasTwo(col: seq<int>, s: nat, e: nat)
    requires s <= e < |col|
    requires forall k :: 0 <= k < s ==> col[k] == 0
    requires forall k :: s <= k <= e ==> col[k] == 1
    requires e + 1 == |col| || col[e + 1] == 0
    ensures |TransitionsBelow(col, e + 2)| == 2
  {
    TransitionsOfRun(col, s, e, e + 2);
  }

  /** Scanning up to and including a 1 has found an odd number of transitions. */
  lemma OddBelowOne(col: seq<int>, k: nat)
    requires IsBinaryColumn(col) && k < |col| && col[k] == 1
    ensures |TransitionsBelow(col, k + 1)| % 2 == 1
  {
    TransitionsParity(col, k + 1);
  }

  /** A third transition is the start or the end of a later run of 1s. */
  lemma WarningHasLaterOne(col: seq<int>, s: nat, e: nat)
    requires IsBinaryColumn(col)
    requires s <= e < |col|
    requires forall k :: 0 <= k < s ==> col[k] == 0
    requires forall k :: s <= k <= e ==> col[k] == 1
    requires e + 1 == |col| || col[e + 1] == 0
    requires |Transitions(col)| > 2
    ensures exists k :: e + 1 < k < |col| && col[k] == 1
  {
    TransitionsOfRun(col, s, e, e + 2);
    TransitionAt(col, e + 2, |col| + 1, 2);
    LaterChange(col, e, Transitions(col)[2]);
  }

  /** TransitionsTail for the one index i. */
  lemma TransitionAt(col: seq<int>, d1: nat, d2: nat, i: nat)
    requires d1 <= d2 <= |col| + 1
    requires |TransitionsBelow(col, d1)| <= i < |TransitionsBelow(col, d2)|
    ensures var x := TransitionsBelow(col, d2)[i];
      d1 <= x < d2 && Framed(col, x + 1) != Framed(col, x)
  {
    TransitionsTail(col, d1, d2);
  }

  /** A change of value at or after row e + 2, with row e + 1 a 0, has a 1
      after row e + 1 on one side of it. */
  lemma LaterChange(col: seq<int>, e: nat, x: nat)
    requires IsBinaryColumn(col) && e + 2 <= x <= |col|
    requires e + 1 == |col| || col[e + 1] == 0
    requires Framed(col, x + 1) != Framed(col, x)
    ensures exists k :: e + 1 < k < |col| && col[k] == 1
  {
    if col[x - 1] == 1 {
      assert e + 1 < x - 1 < |col| && col[x - 1] == 1;
    } else {
      assert e + 1 < x < |col| && col[x] == 1;
    }
  }

  /** A 0/1 column without any 1 has no sides: the Python raises. */
  lemma TableSidesEmptyColumn(col: seq<int>)
    requires IsBinaryColumn(col)
    ensures TableSides(col).None? <==> forall k :: 0 <= k < |col| ==> col[k] == 0
  {
    var n := |col|;
    TransitionsParity(col, n + 1);
    if forall k :: 0 <= k < n ==> col[k] == 0 {
      EmptyTransitions(col, n + 1);
    } else {
      var k :| 0 <= k < n && col[k] == 1;
      TransitionsParity(col, k + 1);
      assert |TransitionsBelow(col, k + 1)| % 2 == 1;
      TransitionsGrow(col, k + 1, n + 1);
      assert 0 < |TransitionsBelow(col, n + 1)|;
    }
  }

  lemma {:induction false} EmptyTransitions(col: seq<int>, d: nat)
    requires d <= |col| + 1 && forall k :: 0 <= k < |col| ==> col[k] == 0
    ensures TransitionsBelow(col, d) == []
  {
    if d > 0 {
      EmptyTransitions(col, d - 1);
    }
  }

  // ---------------------------------------------------------------------
  // recognise_position
  // ---------------------------------------------------------------------

  /** recognise_position. The `imageMask` argument is not used: the masks
      are the ImageMask constants. None where the Python raises (no sides in
      the stretched mask, the edge check raising, an image of zero mass, no
      positive cell for the histogram it computes and never uses). */
  function RecognisePosition(image: Grid, imageMask: Grid, fieldSize: (real, real), masks: ImageMask,
                             stretch: (Grid, real, real) -> Grid): Option<Placement>
    requires IsGrid(image, 16, 16) && ValidImageMask(masks)
  {
    var sImage := stretch(image, fieldSize.0, fieldSize.1);
    match TableSides(LastColumn(masks.stretchedMask, 24))
    case None => None
    case Some(sides) =>
      match OnEdge(image, masks, stretch)
      case None => None
      case Some(isBorder) =>
        match GetImageCentroid(sImage, IntOutput)
        case None => None
        case Some(centroid) =>
          if HistogramOfWeight(sImage, centroid).None? then None
          else if isBorder then Some(Edge)
          else if centroid.y < sides.0 as real || centroid.y > sides.1 as real then Some(Side)
          else Some(Center)
  }

  /** recognise_position never answers `unknown`; it fails exactly when one
      of its four steps raises, and answers `edge` exactly when
      check_item_on_edge says so. */
  lemma RecognisePositionOutcome(image: Grid, imageMask: Grid, fieldSize: (real, real), masks: ImageMask,
                                 stretch: (Grid, real, real) -> Grid)
    requires IsGrid(image, 16, 16) && ValidImageMask(masks)
    ensures var r := RecognisePosition(image, imageMask, fieldSize, masks, stretch);
      && (r.Some? ==> r.value != Unknown)
      && (r.None? <==>
            TableSides(LastColumn(masks.stretchedMask, 24)).None? ||
            OnEdge(image, masks, stretch).None? ||
            Mass(stretch(image, fieldSize.0, fieldSize.1)) == 0 ||
            |PositiveCells(stretch(image, fieldSize.0, fieldSize.1), |stretch(image, fieldSize.0, fieldSize.1)|)| == 0)
      && (r.Some? ==> (r.value == Edge <==> OnEdge(image, masks, stretch) == Some(true)))
  {
    var sImage := stretch(image, fieldSize.0, fieldSize.1);
    var sides := TableSides(LastColumn(masks.stretchedMask, 24));
    var edge := OnEdge(image, masks, stretch);
    var cen := GetImageCentroid(sImage, IntOutput);
    var r := RecognisePosition(image, imageMask, fieldSize, masks, stretch);
    if sides.Some? && edge.Some? && cen.Some? {
      var h := HistogramOfWeight(sImage, cen.value);
      if h.Some? {
        assert r == if edge.value then Some(Edge)
                    else if cen.value.y < sides.value.0 as real || cen.value.y > sides.value.1 as real then Some(Side)
                    else Some(Center);
      }
    }
  }

  /** The `imageMask` argument never changes the answer. */
  lemma RecognisePositionIgnoresImageMask(image: Grid, m1: Grid, m2: Grid, fieldSize: (real, real),
                                          masks: ImageMask, stretch: (Grid, real, real) -> Grid)
    requires IsGrid(image, 16, 16) && ValidImageMask(masks)
    ensures RecognisePosition(image, m1, fieldSize, masks, stretch) ==
            RecognisePosition(image, m2, fieldSize, masks, stretch)
  {
  }

  /** Off the edge, the rounded centroid row decides: outside the sides is
      `side`, anything else `center`. */
  lemma OffEdgeBySides(image: Grid, imageMask: Grid, fieldSize: (real, real), masks: ImageMask,
                       stretch: (Grid, real, real) -> Grid)
    requires IsGrid(image, 16, 16) && ValidImageMask(masks)
    requires TableSides(LastColumn(masks.stretchedMask, 24)).Some?
    requires OnEdge(image, masks, stretch) == Some(false)
    requires Mass(stretch(image, fieldSize.0, fieldSize.1)) != 0
    requires |PositiveCells(stretch(image, fieldSize.0, fieldSize.1), |stretch(image, fieldSize.0, fieldSize.1)|)| > 0
    ensures var cy := GetImageCentroid(stretch(image, fieldSize.0, fieldSize.1), IntOutput).value.y;
            var sides := TableSides(LastColumn(masks.stretchedMask, 24)).value;
      RecognisePosition(image, imageMask, fieldSize, masks, stretch) ==
        if cy < sides.0 as real || cy > sides.1 as real then Some(Side) else Some(Center)
  {
    var sImage := stretch(image, fieldSize.0, fieldSize.1);
    var cen := GetImageCentroid(sImage, IntOutput);
    assert cen.Some?;
    assert HistogramOfWeight(sImage, cen.value).Some?;
    RecognisePositionCases(image, imageMask, fieldSize, masks, stretch);
  }

  /** When every step succeeds, the answer is `edge`, `side` or `center` by
      the edge test and then the rounded centroid row. */
  lemma RecognisePositionCases(image: Grid, imageMask: Grid, fieldSize: (real, real), masks: ImageMask,
                               stretch: (Grid, real, real) -> Grid)
    requires IsGrid(image, 16, 16) && ValidImageMask(masks)
    ensures var sImage := stretch(image, fieldSize.0, fieldSize.1);
      var sides := TableSides(LastColumn(masks.stretchedMask, 24));
      var edge := OnEdge(image, masks, stretch);
      var cen := GetImageCentroid(sImage, IntOutput);
      sides.Some? && edge.Some? && cen.Some? && HistogramOfWeight(sImage, cen.value).Some? ==>
        RecognisePosition(image, imageMask, fieldSize, masks, stretch) ==
          if edge.value then Some(Edge)
          else if cen.value.y < sides.value.0 as real || cen.value.y > sides.value.1 as real then Some(Side)
          else Some(Center)
  {
  }

  /** With a 0/1 stretched mask whose last column's first run of 1s spans
      rows s..e: an item not on the edge is `side` when its rounded centroid
      row is outside [s + 1, e - 1] and `center` otherwise, including on
      either boundary row. */
  lemma SideOrCenter(image: Grid, imageMask: Grid, fieldSize: (real, real), masks: ImageMask,
                     stretch: (Grid, real, real) -> Grid,
                     s: nat, e: nat)
    requires IsGrid(image, 16, 16) && ValidImageMask(masks)
    requires var col := LastColumn(masks.stretchedMask, 24);
      && IsBinaryColumn(col) && s <= e < |col|
      && (forall k :: 0 <= k < s ==> col[k] == 0)
      && (forall k :: s <= k <= e ==> col[k] == 1)
      && (e + 1 == |col| || col[e + 1] == 0)
    requires OnEdge(image, masks, stretch) == Some(false)
    requires Mass(stretch(image, fieldSize.0, fieldSize.1)) != 0
    requires |PositiveCells(stretch(image, fieldSize.0, fieldSize.1), |stretch(image, fieldSize.0, fieldSize.1)|)| > 0
    ensures var cy := GetImageCentroid(stretch(image, fieldSize.0, fieldSize.1), IntOutput).value.y;
      RecognisePosition(image, imageMask, fieldSize, masks, stretch) ==
        if cy < (s + 1) as real || cy > (e - 1) as real then Some(Side) else Some(Center)
  {
    TableSidesOfFirstRun(LastColumn(masks.stretchedMask, 24), s, e);
    OffEdgeBySides(image, imageMask, fieldSize, masks, stretch);
  }
}
