/** The neighbourhood report around the winning cell: the samples of every
    cell within `window` rows and columns of the centre that lies inside the
    grid, in row-major order, and how many of them are below sea level. */
module Neighbourhood {
  import opened ElevationGrid

  /** `window = 15` cells either way. */
  const WINDOW: int := 15

  /** The first index of `[c - w, c + w]` inside `[0, n)`, or `n` if none. */
  function WindowLo(c: int, w: int, n: int): (lo: int)
    requires n >= 0
    ensures 0 <= lo <= n
  {
    if c - w < 0 then 0 else if c - w > n then n else c - w
  }

  /** One past the last index of `[c - w, c + w]` inside `[0, n)`. */
  function WindowHi(c: int, w: int, n: int): (hi: int)
    requires n >= 0
    ensures WindowLo(c, w, n) <= hi <= n
  {
    var lo := WindowLo(c, w, n);
    if c + w + 1 < lo then lo else if c + w + 1 > n then n else c + w + 1
  }

  /** The clipped window holds exactly the in-range indices within `w` of `c`. */
  lemma WindowExact(c: int, w: int, n: int, i: int)
    requires n >= 0 && w >= 0
    ensures WindowLo(c, w, n) <= i < WindowHi(c, w, n) <==> (0 <= i < n && c - w <= i <= c + w)
  {
  }

  /** Samples `cLo .. cHi - 1` of row `r`. */
  function RowRun(g: Grid, r: int, cLo: int, cHi: int): (s: seq<int>)
    requires g.Shaped() && 0 <= r < g.nRows && 0 <= cLo <= cHi <= g.nCols
    ensures |s| == cHi - cLo
    ensures forall c :: cLo <= c < cHi ==> s[c - cLo] == g.Elevation(r, c)
  {
    seq(cHi - cLo, k requires 0 <= k < cHi - cLo => g.Elevation(r, cLo + k))
  }

  /** One more column extends the run by that column's sample. */
  lemma RowRunStep(g: Grid, r: int, cLo: int, c: int)
    requires g.Shaped() && 0 <= r < g.nRows && 0 <= cLo <= c < g.nCols
    ensures RowRun(g, r, cLo, c + 1) == RowRun(g, r, cLo, c) + [g.Elevation(r, c)]
  {
    assert RowRun(g, r, cLo, c + 1)[c - cLo] == g.Elevation(r, c);
  }

  /** `(n + 1) * w == n * w + w`, kept out of the larger proofs. */
  lemma MulSucc(n: int, w: int)
    ensures (n + 1) * w == n * w + w
  {
  }

  /** Two factors in `[0, m]` have a product of at most `m * m`. */
  lemma MulBounded(a: int, b: int, m: int)
    requires 0 <= a <= m && 0 <= b <= m
    ensures a * b <= m * m
  {
    assert a * b <= a * m;
    assert a * m <= m * m;
  }

  /** The rectangular block `[rLo, rHi) x [cLo, cHi)` of the grid, row by
      row; its length is the rectangle's area. */
  function Block(g: Grid, rLo: int, rHi: int, cLo: int, cHi: int): (b: seq<int>)
    requires g.Shaped() && 0 <= rLo <= rHi <= g.nRows && 0 <= cLo <= cHi <= g.nCols
    ensures |b| == (rHi - rLo) * (cHi - cLo)
    decreases rHi - rLo
  {
    if rHi == rLo then []
    else
      MulSucc(rHi - 1 - rLo, cHi - cLo);
      Block(g, rLo, rHi - 1, cLo, cHi) + RowRun(g, rHi - 1, cLo, cHi)
  }

  /** Every cell of the rectangle contributes its sample to the block. */
  lemma {:induction false} BlockHasCell(g: Grid, rLo: int, rHi: int, cLo: int, cHi: int, r: int, c: int)
    requires g.Shaped() && 0 <= rLo <= rHi <= g.nRows && 0 <= cLo <= cHi <= g.nCols
    requires rLo <= r < rHi && cLo <= c < cHi
    ensures g.Elevation(r, c) in Block(g, rLo, rHi, cLo, cHi)
    decreases rHi - rLo
  {
    var run := RowRun(g, rHi - 1, cLo, cHi);
    if r == rHi - 1 {
      assert run[c - cLo] == g.Elevation(r, c);
    } else {
      BlockHasCell(g, rLo, rHi - 1, cLo, cHi, r, c);
    }
  }

  /** Every entry of the block is the sample of a cell of the rectangle. */
  lemma {:induction false} BlockEntryIsCell(g: Grid, rLo: int, rHi: int, cLo: int, cHi: int, i: int)
    requires g.Shaped() && 0 <= rLo <= rHi <= g.nRows && 0 <= cLo <= cHi <= g.nCols
    requires 0 <= i < |Block(g, rLo, rHi, cLo, cHi)|
    ensures exists r, c :: rLo <= r < rHi && cLo <= c < cHi && Block(g, rLo, rHi, cLo, cHi)[i] == g.Elevation(r, c)
    decreases rHi - rLo
  {
    var prev := Block(g, rLo, rHi - 1, cLo, cHi);
    var run := RowRun(g, rHi - 1, cLo, cHi);
    assert Block(g, rLo, rHi, cLo, cHi) == prev + run;
    if i < |prev| {
      BlockEntryIsCell(g, rLo, rHi - 1, cLo, cHi, i);
    } else {
      var c := cLo + (i - |prev|);
      assert run[c - cLo] == g.Elevation(rHi - 1, c);
    }
  }

  /** The block of cells within `w` of `(centerRow, centerCol)`. */
  function WindowBlock(g: Grid, centerRow: int, centerCol: int, w: int): seq<int>
    requires g.Shaped()
  {
    Block(g, WindowLo(centerRow, w, g.nRows), WindowHi(centerRow, w, g.nRows),
          WindowLo(centerCol, w, g.nCols), WindowHi(centerCol, w, g.nCols))
  }

  /** `x` moved into `[lo, hi]`. */
  function ClampTo(x: int, lo: int, hi: int): int
    requires lo <= hi
  {
    if x < lo then lo else if x > hi then hi else x
  }

  /** The inner loop over `dc` in `[-w, w]` for one row offset: the run of
      the row inside the clipped column range, or nothing off the grid. */
  method CollectRow(g: Grid, r: int, centerCol: int, w: int) returns (run: seq<int>)
    requires g.Shaped() && w >= 0
    ensures 0 <= r < g.nRows ==>
      run == RowRun(g, r, WindowLo(centerCol, w, g.nCols), WindowHi(centerCol, w, g.nCols))
    ensures !(0 <= r < g.nRows) ==> run == []
  {
    var cLo, cHi := WindowLo(centerCol, w, g.nCols), WindowHi(centerCol, w, g.nCols);
    run := [];
    var dc := -w;
    while dc <= w
      invariant -w <= dc <= w + 1
      invariant 0 <= r < g.nRows ==> run == RowRun(g, r, cLo, ClampTo(centerCol + dc, cLo, cHi))
      invariant !(0 <= r < g.nRows) ==> run == []
    {
      var c := centerCol + dc;
      WindowExact(centerCol, w, g.nCols, c);
      if 0 <= r < g.nRows && 0 <= c < g.nCols {
        RowRunStep(g, r, cLo, c);
        run := run + [g.Elevation(r, c)];
      }
      dc := dc + 1;
    }
  }

  /** The double loop over offsets `dr, dc` in `[-w, w]` with the bounds
      test inside: it gathers exactly the clipped block. */
  method CollectNeighbours(g: Grid, centerRow: int, centerCol: int, w: int) returns (nb: seq<int>)
    requires g.Shaped() && w >= 0
    ensures nb == WindowBlock(g, centerRow, centerCol, w)
  {
    var rLo, rHi := WindowLo(centerRow, w, g.nRows), WindowHi(centerRow, w, g.nRows);
    var cLo, cHi := WindowLo(centerCol, w, g.nCols), WindowHi(centerCol, w, g.nCols);
    nb := [];
    var dr := -w;
    while dr <= w
      invariant -w <= dr <= w + 1
      invariant nb == Block(g, rLo, ClampTo(centerRow + dr, rLo, rHi), cLo, cHi)
    {
      var run := CollectRow(g, centerRow + dr, centerCol, w);
      nb := nb + run;
      dr := dr + 1;
    }
  }

  /** `sum(1 for e in neighbors if e < 0)`. */
  function CountBelowSea(s: seq<int>): (n: nat)
    ensures n <= |s|
    ensures n == 0 <==> forall i :: 0 <= i < |s| ==> s[i] >= 0
    ensures n == |s| <==> forall i :: 0 <= i < |s| ==> s[i] < 0
  {
    if |s| == 0 then 0
    else
      var rest := CountBelowSea(s[1..]);
      assert forall i :: 1 <= i < |s| ==> s[1..][i - 1] == s[i];
      (if s[0] < 0 then 1 else 0) + rest
  }

  /** The count adds up over a split of the list. Together with the
      one-element case the contract of `CountBelowSea` already fixes (1
      exactly for a negative value), this makes it the number of negative
      entries. */
  lemma {:induction false} CountBelowSeaAppend(a: seq<int>, b: seq<int>)
    ensures CountBelowSea(a + b) == CountBelowSea(a) + CountBelowSea(b)
    decreases |a|
  {
    if |a| == 0 {
      assert a + b == b;
    } else {
      assert (a + b)[1..] == a[1..] + b;
      CountBelowSeaAppend(a[1..], b);
    }
  }

  /** The count is the number of positions holding a negative value. */
  lemma {:induction false} CountBelowSeaIsCount(s: seq<int>)
    ensures CountBelowSea(s) == |set i | 0 <= i < |s| && s[i] < 0|
    decreases |s|
  {
    if |s| > 0 {
      var p, v := s[..|s| - 1], s[|s| - 1];
      assert s == p + [v];
      CountBelowSeaAppend(p, [v]);
      CountBelowSeaIsCount(p);
      var below := set i | 0 <= i < |s| && s[i] < 0;
      var before := set i | 0 <= i < |p| && p[i] < 0;
      assert |p| !in before;
      assert below == before + (if v < 0 then {|p|} else {});
    }
  }

  /** The window never exceeds `(2w + 1)^2` cells; with the script's
      `window = 15` that is 961. */
  lemma WindowSize(g: Grid, centerRow: int, centerCol: int, w: int)
    requires g.Shaped() && w >= 0
    ensures |WindowBlock(g, centerRow, centerCol, w)| <= (2 * w + 1) * (2 * w + 1)
  {
    var h := WindowHi(centerRow, w, g.nRows) - WindowLo(centerRow, w, g.nRows);
    var v := WindowHi(centerCol, w, g.nCols) - WindowLo(centerCol, w, g.nCols);
    MulBounded(h, v, 2 * w + 1);
  }

  /** The window around an in-grid centre contains the centre's own sample,
      so `min`/`max` over it never see an empty list. */
  lemma CentreInWindow(g: Grid, centerRow: int, centerCol: int, w: int)
    requires g.Shaped() && g.InBounds(centerRow, centerCol) && w >= 0
    ensures g.Elevation(centerRow, centerCol) in WindowBlock(g, centerRow, centerCol, w)
  {
    WindowExact(centerRow, w, g.nRows, centerRow);
    WindowExact(centerCol, w, g.nCols, centerCol);
    BlockHasCell(g, WindowLo(centerRow, w, g.nRows), WindowHi(centerRow, w, g.nRows),
                 WindowLo(centerCol, w, g.nCols), WindowHi(centerCol, w, g.nCols), centerRow, centerCol);
  }
}
