/** The 2-D range-sum structures of array-sum/Summer.h and Summer.cc.
    `SummerImpl` replaces every cell by the inclusive prefix sum of the
    rectangle from the origin to it and answers a query by
    inclusion-exclusion over four cells; `SummerNaiveImpl` keeps the input
    and adds the query rectangle cell by cell. The outer index runs along
    the width and the inner one along the height. */
module Summer {

  /** The fields shared by both implementations. */
  datatype Summer = Summer(data: seq<seq<int>>, width: nat, height: nat)

  /** The width is the number of inner vectors and the height the length
      of the first one, or 0 when there is none. */
  function Width(d: seq<seq<int>>): nat
  {
    |d|
  }

  function Height(d: seq<seq<int>>): nat
  {
    if |d| == 0 then 0 else |d[0]|
  }

  /** What the constructors demand: all inner vectors have one length. */
  predicate Rectangular(d: seq<seq<int>>)
  {
    forall i :: 0 <= i < |d| ==> |d[i]| == Height(d)
  }

  /** A summer whose table has the dimensions it records. */
  predicate WellShaped(s: Summer)
  {
    |s.data| == s.width && forall i :: 0 <= i < |s.data| ==> |s.data[i]| == s.height
  }

  predicate InBounds(d: seq<seq<int>>, x: nat, y: nat, w: nat, h: nat)
  {
    Rectangular(d) && x + w <= Width(d) && y + h <= Height(d)
  }

  // ---------------------------------------------------------------------------
  // Reference sums

  /** `row[y] + ... + row[y + h - 1]`. */
  function RowSum(row: seq<int>, y: nat, h: nat): int
    requires y + h <= |row|
  {
    if h == 0 then 0 else RowSum(row, y, h - 1) + row[y + h - 1]
  }

  /** The sum of `d[i][j]` over `x <= i < x + w` and `y <= j < y + h`. */
  function RectSum(d: seq<seq<int>>, x: nat, y: nat, w: nat, h: nat): int
    requires InBounds(d, x, y, w, h)
  {
    if w == 0 then 0 else RectSum(d, x, y, w - 1, h) + RowSum(d[x + w - 1], y, h)
  }

  /** The sum of the `a` by `b` rectangle at the origin. */
  function Prefix(d: seq<seq<int>>, a: nat, b: nat): int
    requires InBounds(d, 0, 0, a, b)
  {
    RectSum(d, 0, 0, a, b)
  }

  lemma {:induction false} RowSumSplit(row: seq<int>, y: nat, a: nat, b: nat)
    requires y + a + b <= |row|
    ensures RowSum(row, y, a + b) == RowSum(row, y, a) + RowSum(row, y + a, b)
  {
    if b > 0 {
      RowSumSplit(row, y, a, b - 1);
    }
  }

  lemma {:induction false} RectSumSplitRows(d: seq<seq<int>>, x: nat, y: nat, a: nat, b: nat, h: nat)
    requires InBounds(d, x, y, a + b, h)
    ensures RectSum(d, x, y, a + b, h) == RectSum(d, x, y, a, h) + RectSum(d, x + a, y, b, h)
  {
    if b > 0 {
      RectSumSplitRows(d, x, y, a, b - 1, h);
    }
  }

  lemma {:induction false} RectSumSplitCols(d: seq<seq<int>>, x: nat, y: nat, w: nat, a: nat, b: nat)
    requires InBounds(d, x, y, w, a + b)
    ensures RectSum(d, x, y, w, a + b) == RectSum(d, x, y, w, a) + RectSum(d, x, y + a, w, b)
  {
    if w > 0 {
      RectSumSplitCols(d, x, y, w - 1, a, b);
      RowSumSplit(d[x + w - 1], y, a, b);
    }
  }

  /** Any rectangle's sum from the four prefix sums at its corners. */
  lemma InclusionExclusion(d: seq<seq<int>>, x: nat, y: nat, w: nat, h: nat)
    requires InBounds(d, x, y, w, h)
    ensures RectSum(d, x, y, w, h)
         == Prefix(d, x + w, y + h) - Prefix(d, x, y + h) - Prefix(d, x + w, y) + Prefix(d, x, y)
  {
    RectSumSplitRows(d, 0, 0, x, w, y + h);
    RectSumSplitRows(d, 0, 0, x, w, y);
    RectSumSplitCols(d, x, 0, w, y, h);
  }

  /** The recurrence the constructor's inner loop applies. */
  lemma PrefixStep(d: seq<seq<int>>, i: nat, j: nat)
    requires InBounds(d, 0, 0, i + 1, j + 1)
    ensures Prefix(d, i + 1, j + 1) == d[i][j] + Prefix(d, i + 1, j) + Prefix(d, i, j + 1) - Prefix(d, i, j)
  {
    InclusionExclusion(d, i, j, 1, 1);
  }

  /** The recurrences of the constructor's two base-case loops. */
  lemma PrefixFirstRow(d: seq<seq<int>>, b: nat)
    requires InBounds(d, 0, 0, 1, b)
    ensures Prefix(d, 1, b) == RowSum(d[0], 0, b)
  {
    assert RectSum(d, 0, 0, 1, b) == RectSum(d, 0, 0, 0, b) + RowSum(d[0], 0, b);
  }

  lemma PrefixFirstColumn(d: seq<seq<int>>, a: nat)
    requires InBounds(d, 0, 0, a + 1, 1)
    ensures Prefix(d, a + 1, 1) == Prefix(d, a, 1) + d[a][0]
  {
    assert RowSum(d[a], 0, 1) == d[a][0];
  }

  // ---------------------------------------------------------------------------
  // SummerImpl (Summer.cc:3-55)

  /** `SummerImpl(data_in)`: the first column and the first row as running
      sums, then every other cell from its three earlier neighbours. */
  method Build(input: seq<seq<int>>) returns (s: Summer)
    requires Rectangular(input)
    ensures WellShaped(s)
    ensures s.width == Width(input) && s.height == Height(input)
    ensures forall i, j :: 0 <= i < s.width && 0 <= j < s.height ==> s.data[i][j] == Prefix(input, i + 1, j + 1)
  {
    var width, height := Width(input), Height(input);
    var data := input;
    if width > 0 && height > 0 {
      var rsum := input[0][0];
      var csum := rsum;
      data := data[0 := data[0][0 := rsum]];
      PrefixFirstRow(input, 1);
      assert RowSum(input[0], 0, 1) == input[0][0];
      var i := 1;
      while i < width
        invariant 1 <= i <= width
        invariant |data| == width && forall k :: 0 <= k < width ==> |data[k]| == height
        invariant rsum == Prefix(input, i, 1)
        invariant forall k, l :: 0 <= k < width && 0 <= l < height ==>
          data[k][l] == if l == 0 && k < i then Prefix(input, k + 1, 1) else input[k][l]
      {
        PrefixFirstColumn(input, i);
        rsum := rsum + data[i][0];
        data := data[i := data[i][0 := rsum]];
        i := i + 1;
      }
      var j := 1;
      while j < height
        invariant 1 <= j <= height
        invariant |data| == width && forall k :: 0 <= k < width ==> |data[k]| == height
        invariant csum == Prefix(input, 1, j)
        invariant forall k, l :: 0 <= k < width && 0 <= l < height ==>
          data[k][l] == if l == 0 || (k == 0 && l < j) then Prefix(input, k + 1, l + 1) else input[k][l]
      {
        RowSumSplit(input[0], 0, j, 1);
        assert RowSum(input[0], j, 1) == input[0][j];
        PrefixFirstRow(input, j);
        PrefixFirstRow(input, j + 1);
        csum := csum + data[0][j];
        data := data[0 := data[0][j := csum]];
        j := j + 1;
      }
    }
    var j := 1;
    while j < height
      invariant 1 <= j && (height > 0 ==> j <= height)
      invariant |data| == width && forall k :: 0 <= k < width ==> |data[k]| == height
      invariant forall k, l :: 0 <= k < width && 0 <= l < height ==>
        data[k][l] == if k == 0 || l < j then Prefix(input, k + 1, l + 1) else input[k][l]
    {
      var i := 1;
      while i < width
        invariant 1 <= i <= width
        invariant |data| == width && forall k :: 0 <= k < width ==> |data[k]| == height
        invariant forall k, l :: 0 <= k < width && 0 <= l < height ==>
          data[k][l] == if k == 0 || l < j || (l == j && k < i) then Prefix(input, k + 1, l + 1) else input[k][l]
      {
        PrefixStep(input, i, j);
        data := data[i := data[i][j := data[i][j] + data[i][j - 1] + data[i - 1][j] - data[i - 1][j - 1]]];
        i := i + 1;
      }
      j := j + 1;
    }
    s := Summer(data, width, height);
  }

  /** `SummerImpl::SumRect`: 0 for an empty table or query, otherwise the
      corner cell minus the strips before the rectangle plus their overlap. */
  function FastSumRect(s: Summer, x: nat, y: nat, w: nat, h: nat): (sum: int)
    requires WellShaped(s) && x + w <= s.width && y + h <= s.height
    ensures s.width == 0 || s.height == 0 || w == 0 || h == 0 ==> sum == 0
  {
    if s.width == 0 || s.height == 0 || w == 0 || h == 0 then 0
    else
      var corner := s.data[x + w - 1][y + h - 1];
      var top := if x > 0 then s.data[x - 1][y + h - 1] else 0;
      var left := if y > 0 then s.data[x + w - 1][y - 1] else 0;
      var overlap := if x > 0 && y > 0 then s.data[x - 1][y - 1] else 0;
      corner - top - left + overlap
  }

  /** A fast query over the table the constructor builds is the sum of the
      rectangle. */
  lemma FastSumRectCorrect(input: seq<seq<int>>, s: Summer, x: nat, y: nat, w: nat, h: nat)
    requires InBounds(input, x, y, w, h)
    requires WellShaped(s) && s.width == Width(input) && s.height == Height(input)
    requires forall i, j :: 0 <= i < s.width && 0 <= j < s.height ==> s.data[i][j] == Prefix(input, i + 1, j + 1)
    ensures FastSumRect(s, x, y, w, h) == RectSum(input, x, y, w, h)
  {
    if s.width == 0 || s.height == 0 || w == 0 || h == 0 {
      if w > 0 {
        RectSumSplitCols(input, x, y, w, 0, 0);
      }
    } else {
      InclusionExclusion(input, x, y, w, h);
      if x == 0 {
        assert Prefix(input, 0, y + h) == 0 && Prefix(input, 0, y) == 0;
      }
      if y == 0 {
        RectSumSplitCols(input, 0, 0, x + w, 0, 0);
        RectSumSplitCols(input, 0, 0, x, 0, 0);
      }
    }
  }

  // ---------------------------------------------------------------------------
  // SummerNaiveImpl (Summer.cc:57-77)

  /** `SummerNaiveImpl(data_in)`: keeps the input and infers its dimensions. */
  function NewNaive(input: seq<seq<int>>): (s: Summer)
    requires Rectangular(input)
    ensures WellShaped(s) && s.data == input
    ensures s.width == |input|
    ensures |input| == 0 ==> s.height == 0
    ensures |input| > 0 ==> s.height == |input[0]|
  {
    Summer(input, Width(input), Height(input))
  }

  /** `SummerNaiveImpl::SumRect`: adds every cell of the rectangle, row by
      row. */
  method NaiveSumRect(s: Summer, x: nat, y: nat, w: nat, h: nat) returns (sum: int)
    requires InBounds(s.data, x, y, w, h)
    ensures sum == RectSum(s.data, x, y, w, h)
  {
    sum := 0;
    var i := x;
    while i - x < w
      invariant x <= i <= x + w
      invariant sum == RectSum(s.data, x, y, i - x, h)
    {
      var j := y;
      while j - y < h
        invariant y <= j <= y + h
        invariant sum == RectSum(s.data, x, y, i - x, h) + RowSum(s.data[i], y, j - y)
      {
        sum := sum + s.data[i][j];
        j := j + 1;
      }
      i := i + 1;
    }
  }

  /** `assert_all_legal_equal` for one query: built from the same
      rectangular input, the fast and the naive structures answer every
      in-bounds rectangle alike, and both give its sum. */
  method CompareSummers(input: seq<seq<int>>, x: nat, y: nat, w: nat, h: nat) returns (fastSum: int, naiveSum: int)
    requires InBounds(input, x, y, w, h)
    ensures fastSum == naiveSum == RectSum(input, x, y, w, h)
  {
    var fast := Build(input);
    fastSum := FastSumRect(fast, x, y, w, h);
    FastSumRectCorrect(input, fast, x, y, w, h);
    naiveSum := NaiveSumRect(NewNaive(input), x, y, w, h);
  }
}
