/** Backward energy: the bottom-up cumulative map of SeamCarverBackward (and of
    the older SeamCarver), and why the greedy walk over it finds a cheapest
    connected seam. */
module Backward {
  import opened Utils
  import opened Seams

  /** The first `height` energy rows each have at least `width` cells. */
  ghost predicate IsEnergy(energy: seq<seq<int>>, height: int, width: int)
  {
    1 <= height <= |energy| && 2 <= width && forall h {:trigger |energy[h]|} :: 0 <= h < height ==> |energy[h]| >= width
  }

  /** The value energyMap stores at (h, w): the last row is the energy itself,
      every other cell adds the smallest in-range cell of the row below
      (CumStep states this). */
  function Cum(energy: seq<seq<int>>, height: int, width: int, h: int, w: int): int
    requires IsEnergy(energy, height, width) && 0 <= h < height && 0 <= w < width
    decreases height - h
  {
    if h == height - 1 then energy[h][w]
    else if w == 0 then
      energy[h][0] + Min(Cum(energy, height, width, h + 1, 0), Cum(energy, height, width, h + 1, 1))
    else if w == width - 1 then
      energy[h][w] + Min(Cum(energy, height, width, h + 1, w - 1), Cum(energy, height, width, h + 1, w))
    else
      energy[h][w] + Min3(Cum(energy, height, width, h + 1, w - 1), Cum(energy, height, width, h + 1, w),
                          Cum(energy, height, width, h + 1, w + 1))
  }

  /** SeamCarverBackward.energyMap: overwrites the first `width` columns of
      the map row by row, from the bottom up. */
  method EnergyMap(emap: array2<int>, energy: seq<seq<int>>, height: int, width: int)
    requires IsEnergy(energy, height, width)
    requires emap.Length0 == height && width <= emap.Length1
    modifies emap
    ensures forall h, w :: 0 <= h < height && 0 <= w < width ==> emap[h, w] == Cum(energy, height, width, h, w)
    ensures forall h, w :: 0 <= h < height && width <= w < emap.Length1 ==> emap[h, w] == old(emap[h, w])
  {
    var last := height - 1;
    for w := 0 to width
      invariant forall j :: 0 <= j < w ==> emap[last, j] == Cum(energy, height, width, last, j)
      invariant forall i, j :: 0 <= i < height && width <= j < emap.Length1 ==> emap[i, j] == old(emap[i, j])
    {
      emap[last, w] := energy[last][w];
    }
    var h := height - 2;
    while h >= 0
      invariant -1 <= h <= height - 2
      invariant forall i, j :: h < i < height && 0 <= j < width ==> emap[i, j] == Cum(energy, height, width, i, j)
      invariant forall i, j :: 0 <= i < height && width <= j < emap.Length1 ==> emap[i, j] == old(emap[i, j])
    {
      FillRow(emap, energy, height, width, h);
      h := h - 1;
    }
  }

  /** One pass of energyMap's outer loop: row h from row h + 1 below it,
      column 0 and the last column looking at two cells, the others at three. */
  method FillRow(emap: array2<int>, energy: seq<seq<int>>, height: int, width: int, h: int)
    requires IsEnergy(energy, height, width)
    requires emap.Length0 == height && width <= emap.Length1 && 0 <= h < height - 1
    requires forall i, j :: i == h + 1 && 0 <= j < width ==> emap[i, j] == Cum(energy, height, width, i, j)
    modifies emap
    ensures forall j :: 0 <= j < width ==> emap[h, j] == Cum(energy, height, width, h, j)
    ensures forall i, j :: 0 <= i < height && 0 <= j < emap.Length1 && (i != h || width <= j) ==> emap[i, j] == old(emap[i, j])
  {
    var row := energy[h];
    emap[h, 0] := row[0] + Min(emap[h + 1, 0], emap[h + 1, 1]);
    var w := 1;
    while w < width - 1
      invariant 1 <= w <= width - 1
      invariant forall j :: 0 <= j < w ==> emap[h, j] == Cum(energy, height, width, h, j)
      invariant forall i, j :: 0 <= i < height && 0 <= j < emap.Length1 && (i != h || width <= j) ==> emap[i, j] == old(emap[i, j])
    {
      emap[h, w] := row[w] + Min3(emap[h + 1, w - 1], emap[h + 1, w], emap[h + 1, w + 1]);
      w := w + 1;
    }
    emap[h, w] := row[w] + Min(emap[h + 1, w - 1], emap[h + 1, w]);
  }

  /** Energy collected by seam `p` on rows h .. height-1. */
  ghost function PathCost(energy: seq<seq<int>>, height: int, width: int, p: seq<int>, h: int): int
    requires IsEnergy(energy, height, width) && IsSeam(p, height, width) && 0 <= h <= height
    decreases height - h
  {
    if h == height then 0 else energy[h][p[h]] + PathCost(energy, height, width, p, h + 1)
  }

  /** Total energy of a seam. */
  ghost function SeamEnergy(energy: seq<seq<int>>, height: int, width: int, p: seq<int>): int
    requires IsEnergy(energy, height, width) && IsSeam(p, height, width)
  {
    PathCost(energy, height, width, p, 0)
  }

  /** No connected path through (h, p[h]) collects less than the map value there. */
  lemma {:induction false} CumIsLowerBound(energy: seq<seq<int>>, height: int, width: int, p: seq<int>, h: int)
    requires IsEnergy(energy, height, width) && IsSeam(p, height, width) && 0 <= h < height
    ensures Cum(energy, height, width, h, p[h]) <= PathCost(energy, height, width, p, h)
    decreases height - h
  {
    if h < height - 1 {
      CumIsLowerBound(energy, height, width, p, h + 1);
    }
  }

  /** Column b of row i + 1 is a cheapest in-range cell below column a. */
  ghost predicate CheapestBelow(energy: seq<seq<int>>, height: int, width: int, i: int, a: int, b: int)
    requires IsEnergy(energy, height, width) && 0 <= i < height - 1 && 0 <= a < width && 0 <= b < width
  {
    var best := Cum(energy, height, width, i + 1, b);
    && a - 1 <= b <= a + 1
    && (a > 0 ==> best <= Cum(energy, height, width, i + 1, a - 1))
    && best <= Cum(energy, height, width, i + 1, a)
    && (a < width - 1 ==> best <= Cum(energy, height, width, i + 1, a + 1))
  }

  /** Above the last row, a map cell is its energy plus the map value of a
      cheapest in-range cell of the row below (no in-range cell below is
      cheaper, see CheapestBelow). */
  lemma CumStep(energy: seq<seq<int>>, height: int, width: int, h: int, w: int)
    requires IsEnergy(energy, height, width) && 0 <= h < height - 1 && 0 <= w < width
    ensures exists v :: 0 <= v < width && CheapestBelow(energy, height, width, h, w, v) &&
              Cum(energy, height, width, h, w) == energy[h][w] + Cum(energy, height, width, h + 1, v)
  {
    var c := Cum(energy, height, width, h, w) - energy[h][w];
    if w > 0 && c == Cum(energy, height, width, h + 1, w - 1) {
      assert CheapestBelow(energy, height, width, h, w, w - 1);
    } else if c == Cum(energy, height, width, h + 1, w) {
      assert CheapestBelow(energy, height, width, h, w, w);
    } else {
      assert CheapestBelow(energy, height, width, h, w, w + 1);
    }
  }

  /** A path that always steps to a cheapest cell below collects exactly the
      map value it starts from. */
  lemma {:induction false} CumAttained(energy: seq<seq<int>>, height: int, width: int, p: seq<int>, h: int)
    requires IsEnergy(energy, height, width) && IsSeam(p, height, width) && 0 <= h < height
    requires forall i :: h <= i < height - 1 ==> CheapestBelow(energy, height, width, i, p[i], p[i + 1])
    ensures Cum(energy, height, width, h, p[h]) == PathCost(energy, height, width, p, h)
    decreases height - h
  {
    if h < height - 1 {
      CumAttained(energy, height, width, p, h + 1);
      assert CheapestBelow(energy, height, width, h, p[h], p[h + 1]);
    }
  }

  /** The map as energyMap leaves it: its first `width` columns hold Cum. */
  ghost predicate IsCumMap(m: seq<seq<int>>, energy: seq<seq<int>>, height: int, width: int)
    requires IsEnergy(energy, height, width)
  {
    && |m| == height && IsMap(m, width)
    && forall h, w :: 0 <= h < height && 0 <= w < width ==> m[h][w] == Cum(energy, height, width, h, w)
  }

  /** On a freshly built map, the seam SeamCarverBase.remove extracts costs
      exactly the smallest value of map row 0, and no connected seam costs less. */
  lemma BackwardSeamOptimal(m: seq<seq<int>>, energy: seq<seq<int>>, height: int, width: int)
    requires IsEnergy(energy, height, width) && IsCumMap(m, energy, height, width)
    ensures var p := ExtractSeam(m, width);
            && SeamEnergy(energy, height, width, p) == m[0][p[0]]
            && (forall w :: 0 <= w < width ==> m[0][p[0]] <= m[0][w])
            && (forall q :: IsSeam(q, height, width) ==>
                  SeamEnergy(energy, height, width, p) <= SeamEnergy(energy, height, width, q))
  {
    var p := ExtractSeam(m, width);
    forall i | 0 <= i < height - 1
      ensures CheapestBelow(energy, height, width, i, p[i], p[i + 1])
    {
      assert IsNextColumn(m[i + 1], p[i], width, p[i + 1]);
    }
    CumAttained(energy, height, width, p, 0);
    forall q | IsSeam(q, height, width)
      ensures SeamEnergy(energy, height, width, p) <= SeamEnergy(energy, height, width, q)
    {
      CumIsLowerBound(energy, height, width, q, 0);
    }
  }

  /** Cum row i + 1, the row a walk from row i looks at. */
  ghost function CumRow(energy: seq<seq<int>>, height: int, width: int, i: int): (r: seq<int>)
    requires IsEnergy(energy, height, width) && 0 <= i < height
    ensures |r| == width && forall w :: 0 <= w < width ==> r[w] == Cum(energy, height, width, i, w)
  {
    seq(width, w requires 0 <= w < width => Cum(energy, height, width, i, w))
  }

  /** The walk from (h, c) down to the last row, one column per row. */
  ghost function Descent(energy: seq<seq<int>>, height: int, width: int, h: int, c: int): (d: seq<int>)
    requires IsEnergy(energy, height, width) && 0 <= h < height && 0 <= c < width
    ensures |d| == height - h && d[0] == c
    ensures forall i :: 0 <= i < |d| ==> 0 <= d[i] < width
    ensures forall i :: 1 <= i < |d| ==> d[i] == NextColumn(CumRow(energy, height, width, h + i), d[i - 1], width)
    decreases height - h
  {
    if h == height - 1 then [c]
    else [c] + Descent(energy, height, width, h + 1, NextColumn(CumRow(energy, height, width, h + 1), c, width))
  }

  /** Some seam through (h, c) collects exactly Cum(h, c) from row h down: the
      descent from (h, c), kept at column c above row h. */
  lemma CumAttainable(energy: seq<seq<int>>, height: int, width: int, h: int, c: int)
    requires IsEnergy(energy, height, width) && 0 <= h < height && 0 <= c < width
    ensures exists p :: IsSeam(p, height, width) && p[h] == c &&
              PathCost(energy, height, width, p, h) == Cum(energy, height, width, h, c)
  {
    var d := Descent(energy, height, width, h, c);
    var p := seq(h, _ => c) + d;
    assert forall i :: h <= i < height ==> p[i] == d[i - h];
    forall i | h <= i < height - 1
      ensures CheapestBelow(energy, height, width, i, p[i], p[i + 1])
    {
      assert p[i + 1] == NextColumn(CumRow(energy, height, width, i + 1), p[i], width);
    }
    CumAttained(energy, height, width, p, h);
  }

  /** Every map cell is the least energy over connected paths from that cell to
      the last row: some seam through (h, c) collects exactly Cum(h, c) from
      row h down, and none collects less. */
  lemma CumIsOptimal(energy: seq<seq<int>>, height: int, width: int, h: int, c: int)
    requires IsEnergy(energy, height, width) && 0 <= h < height && 0 <= c < width
    ensures exists p :: IsSeam(p, height, width) && p[h] == c &&
              PathCost(energy, height, width, p, h) == Cum(energy, height, width, h, c)
    ensures forall q :: IsSeam(q, height, width) && q[h] == c ==>
              Cum(energy, height, width, h, c) <= PathCost(energy, height, width, q, h)
  {
    CumAttainable(energy, height, width, h, c);
    forall q | IsSeam(q, height, width) && q[h] == c
      ensures Cum(energy, height, width, h, c) <= PathCost(energy, height, width, q, h)
    {
      CumIsLowerBound(energy, height, width, q, h);
    }
  }
}
