/** Forward energy: the top-down pass of SeamCarverForward.  `minimums` holds
    the least accumulated insertion cost of reaching each cell from row 0,
    with left and right neighbours wrapping around the row ends; the energy
    map itself only keeps the local cost of the winning transition. */
module Forward {
  import opened Utils
  import Backward

  /** The left neighbour of column w, wrapping around from column 0 to the
      last column. */
  function Left(w: int, width: int): (l: int)
    requires 0 <= w < width
    ensures 0 <= l < width
  {
    if w == 0 then width - 1 else w - 1
  }

  /** The right neighbour of column w, wrapping around from the last column
      to column 0. */
  function Right(w: int, width: int): (r: int)
    requires 0 <= w < width
    ensures 0 <= r < width
  {
    if w == width - 1 then 0 else w + 1
  }

  /** energyMap computes the neighbours as `(w - 1 + width) % width` and
      `(w + 1) % width`; with these non-negative operands Java's `%` is the
      wrap-around above. */
  lemma NeighboursWrap(w: int, width: int)
    requires 0 <= w < width
    ensures JavaRem(w - 1 + width, width) == Left(w, width)
    ensures JavaRem(w + 1, width) == Right(w, width)
  {
    ShiftedResidue(if w == 0 then width - 1 else w - 1, width);
    ShiftedResidue(if w == width - 1 then 0 else w + 1, width);
  }

  /** cU: the new edge between the left and right neighbours once (h, w) goes. */
  function CU(energy: seq<seq<int>>, height: int, width: int, h: int, w: int): (c: int)
    requires Backward.IsEnergy(energy, height, width) && 0 <= h < height && 0 <= w < width
    ensures c >= 0
  {
    Abs(energy[h][Right(w, width)] - energy[h][Left(w, width)])
  }

  /** cL: cU plus the edge between the cell above and the left neighbour. */
  function CL(energy: seq<seq<int>>, height: int, width: int, h: int, w: int): (c: int)
    requires Backward.IsEnergy(energy, height, width) && 1 <= h < height && 0 <= w < width
    ensures c >= CU(energy, height, width, h, w)
  {
    Abs(energy[h - 1][w] - energy[h][Left(w, width)]) + CU(energy, height, width, h, w)
  }

  /** cR: cU plus the edge between the cell above and the right neighbour. */
  function CR(energy: seq<seq<int>>, height: int, width: int, h: int, w: int): (c: int)
    requires Backward.IsEnergy(energy, height, width) && 1 <= h < height && 0 <= w < width
    ensures c >= CU(energy, height, width, h, w)
  {
    Abs(energy[h - 1][w] - energy[h][Right(w, width)]) + CU(energy, height, width, h, w)
  }

  /** minimums[h][w] after energyMap: row 0 is cU, every later cell the least
      of the three candidates mU, mL, mR built on the row above. */
  function Acc(energy: seq<seq<int>>, height: int, width: int, h: int, w: int): (m: int)
    requires Backward.IsEnergy(energy, height, width) && 0 <= h < height && 0 <= w < width
    ensures m >= 0
    decreases h
  {
    if h == 0 then CU(energy, height, width, 0, w)
    else
      Min3(Acc(energy, height, width, h - 1, w) + CU(energy, height, width, h, w),
           Acc(energy, height, width, h - 1, Left(w, width)) + CL(energy, height, width, h, w),
           Acc(energy, height, width, h - 1, Right(w, width)) + CR(energy, height, width, h, w))
  }

  /** The column of row h - 1 the winning candidate comes from; ties go to
      the cell straight above, then the left one, then the right one. */
  function Parent(energy: seq<seq<int>>, height: int, width: int, h: int, w: int): (p: int)
    requires Backward.IsEnergy(energy, height, width) && 1 <= h < height && 0 <= w < width
    ensures p == w || p == Left(w, width) || p == Right(w, width)
  {
    var mU := Acc(energy, height, width, h - 1, w) + CU(energy, height, width, h, w);
    var mL := Acc(energy, height, width, h - 1, Left(w, width)) + CL(energy, height, width, h, w);
    var mR := Acc(energy, height, width, h - 1, Right(w, width)) + CR(energy, height, width, h, w);
    var min := Min3(mU, mL, mR);
    if min == mU then w else if min == mL then Left(w, width) else Right(w, width)
  }

  /** map[h][w] after energyMap: the local cost of the winning candidate,
      with the same tie order as Parent. */
  function Local(energy: seq<seq<int>>, height: int, width: int, h: int, w: int): (c: int)
    requires Backward.IsEnergy(energy, height, width) && 0 <= h < height && 0 <= w < width
    ensures c >= CU(energy, height, width, h, w)
    ensures h == 0 ==> c == CU(energy, height, width, h, w)
    ensures h > 0 ==> c == CU(energy, height, width, h, w) || c == CL(energy, height, width, h, w)
                      || c == CR(energy, height, width, h, w)
  {
    if h == 0 then CU(energy, height, width, 0, w)
    else
      var cU, cL, cR := CU(energy, height, width, h, w), CL(energy, height, width, h, w), CR(energy, height, width, h, w);
      var mU := Acc(energy, height, width, h - 1, w) + cU;
      var mL := Acc(energy, height, width, h - 1, Left(w, width)) + cL;
      var mR := Acc(energy, height, width, h - 1, Right(w, width)) + cR;
      var min := Min3(mU, mL, mR);
      if min == mU then cU else if min == mL then cL else cR
  }

  /** The map keeps the step, the minimums keep the sum: each accumulated
      value is the parent's accumulated value plus the local cost, so the
      local cost never exceeds the accumulated one. */
  lemma AccSplits(energy: seq<seq<int>>, height: int, width: int, h: int, w: int)
    requires Backward.IsEnergy(energy, height, width) && 1 <= h < height && 0 <= w < width
    ensures Acc(energy, height, width, h, w)
         == Acc(energy, height, width, h - 1, Parent(energy, height, width, h, w)) + Local(energy, height, width, h, w)
    ensures Local(energy, height, width, h, w) <= Acc(energy, height, width, h, w)
  {
  }

  /** Column `prev` of row h - 1 is one of the three cells a transition into
      (h, w) may come from. */
  ghost predicate Adjacent(width: int, w: int, prev: int)
    requires 0 <= w < width
  {
    prev == w || prev == Left(w, width) || prev == Right(w, width)
  }

  /** Cost of entering (h, w) from column `prev` of the row above.  On a
      two-column image the left and right neighbours coincide and the cheaper
      label applies. */
  ghost function Step(energy: seq<seq<int>>, height: int, width: int, h: int, w: int, prev: int): int
    requires Backward.IsEnergy(energy, height, width) && 1 <= h < height && 0 <= w < width && Adjacent(width, w, prev)
  {
    if prev == w then CU(energy, height, width, h, w)
    else if prev == Left(w, width) && prev == Right(w, width) then
      Min(CL(energy, height, width, h, w), CR(energy, height, width, h, w))
    else if prev == Left(w, width) then CL(energy, height, width, h, w)
    else CR(energy, height, width, h, w)
  }

  /** A top-down path of |q| rows whose consecutive columns are adjacent with
      wrap-around. */
  ghost predicate IsWrapPath(q: seq<int>, height: int, width: int)
  {
    && |q| <= height
    && (forall i :: 0 <= i < |q| ==> 0 <= q[i] < width)
    && (forall i :: 1 <= i < |q| ==> 0 <= q[i] < width && Adjacent(width, q[i], q[i - 1]))
  }

  /** Forward cost of the path q[0..h]: cU in row 0, then one Step per row. */
  ghost function ForwardCost(energy: seq<seq<int>>, height: int, width: int, q: seq<int>, h: int): int
    requires Backward.IsEnergy(energy, height, width) && IsWrapPath(q, height, width) && 0 <= h < |q|
    decreases h
  {
    if h == 0 then CU(energy, height, width, 0, q[0])
    else ForwardCost(energy, height, width, q, h - 1) + Step(energy, height, width, h, q[h], q[h - 1])
  }

  /** No wrap-around path reaching (h, q[h]) costs less than minimums there. */
  lemma {:induction false} AccIsLowerBound(energy: seq<seq<int>>, height: int, width: int, q: seq<int>, h: int)
    requires Backward.IsEnergy(energy, height, width) && IsWrapPath(q, height, width) && 0 <= h < |q|
    ensures Acc(energy, height, width, h, q[h]) <= ForwardCost(energy, height, width, q, h)
    decreases h
  {
    if h > 0 {
      AccIsLowerBound(energy, height, width, q, h - 1);
      assert Adjacent(width, q[h], q[h - 1]);
      AccStepBound(energy, height, width, h, q[h], q[h - 1]);
      assert ForwardCost(energy, height, width, q, h)
          == ForwardCost(energy, height, width, q, h - 1) + Step(energy, height, width, h, q[h], q[h - 1]);
    }
  }

  /** Entering (h, w) from any of its three upper neighbours costs at least
      the accumulated value there. */
  lemma AccStepBound(energy: seq<seq<int>>, height: int, width: int, h: int, w: int, prev: int)
    requires Backward.IsEnergy(energy, height, width) && 1 <= h < height && 0 <= w < width && Adjacent(width, w, prev)
    ensures 0 <= prev < width
    ensures Acc(energy, height, width, h, w) <= Acc(energy, height, width, h - 1, prev) + Step(energy, height, width, h, w, prev)
  {
  }

  /** Parent recorded once per cell: row h holds the parent columns of the
      cells of row h (row 0, which has none, holds the columns themselves). */
  ghost function ParentTable(energy: seq<seq<int>>, height: int, width: int): (t: seq<seq<int>>)
    requires Backward.IsEnergy(energy, height, width)
    ensures IsTable(t, height, width)
  {
    seq(height, h requires 0 <= h < height =>
      seq(width, w requires 0 <= w < width => if h == 0 then w else Parent(energy, height, width, h, w)))
  }

  /** `height` rows of `width` columns, each entry a column of the image. */
  ghost predicate IsTable(t: seq<seq<int>>, height: int, width: int)
  {
    |t| == height && forall h :: 0 <= h < height ==> |t[h]| == width && forall w :: 0 <= w < width ==> 0 <= t[h][w] < width
  }

  /** The path that follows the table back from (h, w) to row 0. */
  ghost function Trace(t: seq<seq<int>>, height: int, width: int, h: int, w: int): (q: seq<int>)
    requires IsTable(t, height, width) && 0 <= h < height && 0 <= w < width
    ensures |q| == h + 1 && q[h] == w
    decreases h
  {
    if h == 0 then [w]
    else Trace(t, height, width, h - 1, t[h][w]) + [w]
  }

  /** Every cell of q lies in the image and each row's column is the parent
      of the next row's. */
  ghost predicate FollowsParents(energy: seq<seq<int>>, height: int, width: int, q: seq<int>)
    requires Backward.IsEnergy(energy, height, width) && |q| <= height
  {
    && (forall i :: 0 <= i < |q| ==> 0 <= q[i] < width)
    && (forall i {:trigger Parent(energy, height, width, i, q[i])} :: 1 <= i < |q| ==> q[i - 1] == Parent(energy, height, width, i, q[i]))
  }

  /** The trace stays in the image and each step comes from the table entry
      of the cell it enters. */
  lemma {:induction false} TraceFollowsTable(t: seq<seq<int>>, height: int, width: int, h: int, w: int)
    requires IsTable(t, height, width) && 0 <= h < height && 0 <= w < width
    ensures forall i :: 0 <= i <= h ==> 0 <= Trace(t, height, width, h, w)[i] < width
    ensures forall i :: 1 <= i <= h ==> Trace(t, height, width, h, w)[i - 1] == t[i][Trace(t, height, width, h, w)[i]]
    decreases h
  {
    if h > 0 {
      var p := t[h][w];
      TraceFollowsTable(t, height, width, h - 1, p);
      var r := Trace(t, height, width, h - 1, p);
      var q := Trace(t, height, width, h, w);
      assert q == r + [w];
      assert forall i :: 0 <= i < h ==> q[i] == r[i];
    }
  }

  /** The trace through the parent table follows Parent. */
  lemma TraceFollowsParents(energy: seq<seq<int>>, height: int, width: int, h: int, w: int)
    requires Backward.IsEnergy(energy, height, width) && 0 <= h < height && 0 <= w < width
    ensures FollowsParents(energy, height, width, Trace(ParentTable(energy, height, width), height, width, h, w))
  {
    var t := ParentTable(energy, height, width);
    var q := Trace(t, height, width, h, w);
    TraceFollowsTable(t, height, width, h, w);
    forall i | 1 <= i < |q|
      ensures q[i - 1] == Parent(energy, height, width, i, q[i])
    {
      assert q[i - 1] == t[i][q[i]];
    }
  }

  /** Following the parents costs exactly the accumulated value, one local
      cost per row. */
  lemma {:induction false} TraceAttainsAcc(energy: seq<seq<int>>, height: int, width: int, q: seq<int>, h: int)
    requires Backward.IsEnergy(energy, height, width) && 0 <= h < |q| <= height
    requires FollowsParents(energy, height, width, q)
    ensures IsWrapPath(q, height, width)
    ensures ForwardCost(energy, height, width, q, h) == Acc(energy, height, width, h, q[h])
    decreases h
  {
    ParentsMakeWrapPath(energy, height, width, q);
    if h > 0 {
      TraceAttainsAcc(energy, height, width, q, h - 1);
      AccSplits(energy, height, width, h, q[h]);
      StepFromParent(energy, height, width, h, q[h]);
      assert q[h - 1] == Parent(energy, height, width, h, q[h]);
      assert ForwardCost(energy, height, width, q, h)
          == ForwardCost(energy, height, width, q, h - 1) + Step(energy, height, width, h, q[h], q[h - 1]);
    }
  }

  /** A path that steps to each cell from its parent is a wrap-around path. */
  lemma ParentsMakeWrapPath(energy: seq<seq<int>>, height: int, width: int, q: seq<int>)
    requires Backward.IsEnergy(energy, height, width) && |q| <= height
    requires FollowsParents(energy, height, width, q)
    ensures IsWrapPath(q, height, width)
  {
    forall i | 1 <= i < |q|
      ensures Adjacent(width, q[i], q[i - 1])
    {
      assert q[i - 1] == Parent(energy, height, width, i, q[i]);
    }
  }

  /** Entering (h, w) from its parent costs exactly the local cost the map
      records, also on a two-column image where left and right coincide. */
  lemma StepFromParent(energy: seq<seq<int>>, height: int, width: int, h: int, w: int)
    requires Backward.IsEnergy(energy, height, width) && 1 <= h < height && 0 <= w < width
    ensures Step(energy, height, width, h, w, Parent(energy, height, width, h, w)) == Local(energy, height, width, h, w)
  {
    var l, r := Left(w, width), Right(w, width);
    var mU := Acc(energy, height, width, h - 1, w) + CU(energy, height, width, h, w);
    var mL := Acc(energy, height, width, h - 1, l) + CL(energy, height, width, h, w);
    var mR := Acc(energy, height, width, h - 1, r) + CR(energy, height, width, h, w);
    var min := Min3(mU, mL, mR);
    if min != mU && l == r {
      assert CL(energy, height, width, h, w) - CR(energy, height, width, h, w) == mL - mR;
    }
  }

  /** minimums[h][w] is the least forward cost of any wrap-around path from
      row 0 that ends at (h, w), and the parent trace attains it. */
  lemma AccIsOptimal(energy: seq<seq<int>>, height: int, width: int, h: int, w: int)
    requires Backward.IsEnergy(energy, height, width) && 0 <= h < height && 0 <= w < width
    ensures IsWrapPath(Trace(ParentTable(energy, height, width), height, width, h, w), height, width)
    ensures ForwardCost(energy, height, width, Trace(ParentTable(energy, height, width), height, width, h, w), h)
         == Acc(energy, height, width, h, w)
    ensures forall q :: IsWrapPath(q, height, width) && |q| == h + 1 && q[h] == w ==>
              Acc(energy, height, width, h, w) <= ForwardCost(energy, height, width, q, h)
  {
    TraceFollowsParents(energy, height, width, h, w);
    TraceAttainsAcc(energy, height, width, Trace(ParentTable(energy, height, width), height, width, h, w), h);
    forall q | IsWrapPath(q, height, width) && |q| == h + 1 && q[h] == w
      ensures Acc(energy, height, width, h, w) <= ForwardCost(energy, height, width, q, h)
    {
      AccIsLowerBound(energy, height, width, q, h);
    }
  }

  /** SeamCarverForward.energyMap: fills row 0 of both tables with cU, then
      every later row from the row above. */
  method EnergyMap(minimums: array2<int>, emap: array2<int>, energy: seq<seq<int>>, height: int, width: int)
    requires Backward.IsEnergy(energy, height, width) && minimums != emap
    requires minimums.Length0 == height && width <= minimums.Length1
    requires emap.Length0 == height && width <= emap.Length1
    modifies minimums, emap
    ensures forall h, w :: 0 <= h < height && 0 <= w < width ==>
              minimums[h, w] == Acc(energy, height, width, h, w) && emap[h, w] == Local(energy, height, width, h, w)
    ensures forall h, w :: 0 <= h < height && width <= w < minimums.Length1 ==> minimums[h, w] == old(minimums[h, w])
    ensures forall h, w :: 0 <= h < height && width <= w < emap.Length1 ==> emap[h, w] == old(emap[h, w])
  {
    for w := 0 to width
      invariant forall j :: 0 <= j < w ==>
                  minimums[0, j] == Acc(energy, height, width, 0, j) && emap[0, j] == Local(energy, height, width, 0, j)
      invariant forall i, j :: 0 <= i < height && width <= j < minimums.Length1 ==> minimums[i, j] == old(minimums[i, j])
      invariant forall i, j :: 0 <= i < height && width <= j < emap.Length1 ==> emap[i, j] == old(emap[i, j])
    {
      var left := JavaRem(w - 1 + width, width);
      var right := JavaRem(w + 1, width);
      NeighboursWrap(w, width);
      var cU := Abs(energy[0][right] - energy[0][left]);
      minimums[0, w] := cU;
      emap[0, w] := cU;
    }
    for h := 1 to height
      invariant forall i, j :: 0 <= i < h && 0 <= j < width ==>
                  minimums[i, j] == Acc(energy, height, width, i, j) && emap[i, j] == Local(energy, height, width, i, j)
      invariant forall i, j :: 0 <= i < height && width <= j < minimums.Length1 ==> minimums[i, j] == old(minimums[i, j])
      invariant forall i, j :: 0 <= i < height && width <= j < emap.Length1 ==> emap[i, j] == old(emap[i, j])
    {
      FillRow(minimums, emap, energy, height, width, h);
    }
  }

  /** One pass of energyMap's second loop: row h of both tables from row h - 1
      of the minimums. */
  method FillRow(minimums: array2<int>, emap: array2<int>, energy: seq<seq<int>>, height: int, width: int, h: int)
    requires Backward.IsEnergy(energy, height, width) && minimums != emap && 1 <= h < height
    requires minimums.Length0 == height && width <= minimums.Length1
    requires emap.Length0 == height && width <= emap.Length1
    requires forall i, j :: i == h - 1 && 0 <= j < width ==> minimums[i, j] == Acc(energy, height, width, i, j)
    modifies minimums, emap
    ensures forall j :: 0 <= j < width ==>
              minimums[h, j] == Acc(energy, height, width, h, j) && emap[h, j] == Local(energy, height, width, h, j)
    ensures forall i, j :: 0 <= i < height && 0 <= j < minimums.Length1 && (i != h || width <= j) ==> minimums[i, j] == old(minimums[i, j])
    ensures forall i, j :: 0 <= i < height && 0 <= j < emap.Length1 && (i != h || width <= j) ==> emap[i, j] == old(emap[i, j])
  {
    for w := 0 to width
      invariant forall j :: 0 <= j < w ==>
                  minimums[h, j] == Acc(energy, height, width, h, j) && emap[h, j] == Local(energy, height, width, h, j)
      invariant forall i, j :: 0 <= i < height && 0 <= j < minimums.Length1 && (i != h || w <= j) ==> minimums[i, j] == old(minimums[i, j])
      invariant forall i, j :: 0 <= i < height && 0 <= j < emap.Length1 && (i != h || w <= j) ==> emap[i, j] == old(emap[i, j])
    {
      FillCell(minimums, emap, energy, height, width, h, w);
    }
  }

  /** The body of that loop for one column: the three candidates, the least
      of them into the minimums, its local cost into the map. */
  method FillCell(minimums: array2<int>, emap: array2<int>, energy: seq<seq<int>>, height: int, width: int, h: int, w: int)
    requires Backward.IsEnergy(energy, height, width) && minimums != emap && 1 <= h < height && 0 <= w < width
    requires minimums.Length0 == height && width <= minimums.Length1
    requires emap.Length0 == height && width <= emap.Length1
    requires forall i, j :: i == h - 1 && 0 <= j < width ==> minimums[i, j] == Acc(energy, height, width, i, j)
    modifies minimums, emap
    ensures minimums[h, w] == Acc(energy, height, width, h, w) && emap[h, w] == Local(energy, height, width, h, w)
    ensures forall i, j :: 0 <= i < height && 0 <= j < minimums.Length1 && (i != h || j != w) ==> minimums[i, j] == old(minimums[i, j])
    ensures forall i, j :: 0 <= i < height && 0 <= j < emap.Length1 && (i != h || j != w) ==> emap[i, j] == old(emap[i, j])
  {
    var left := JavaRem(w - 1 + width, width);
    var right := JavaRem(w + 1, width);
    NeighboursWrap(w, width);
    var cU := Abs(energy[h][right] - energy[h][left]);
    var cL := Abs(energy[h - 1][w] - energy[h][left]) + cU;
    var cR := Abs(energy[h - 1][w] - energy[h][right]) + cU;
    var mU := minimums[h - 1, w] + cU;
    var mL := minimums[h - 1, left] + cL;
    var mR := minimums[h - 1, right] + cR;
    var min := Min3(mU, mL, mR);
    var cMin;
    if min == mU {
      cMin := cU;
    } else if min == mL {
      cMin := cL;
    } else {
      cMin := cR;
    }
    minimums[h, w] := min;
    emap[h, w] := cMin;
  }
}
