/** The older single-class engine, SeamCarver: backward (Sobel) energy only,
    with the map rebuilt inside add and remove themselves, the seam walk and
    the cuts done in one loop, and batch operations without a `count <= 0`
    guard. */
module LegacyCarver {
  import opened Utils
  import opened Seams
  import opened Greedy
  import Backward

  /** The state of SeamCarver.remove's loop after `path` rows: the path is the
      walk's prefix and its cells are gone from those rows of the pixel and
      gradient rows, collected in `pixels` and `energies`. */
  ghost predicate WalkedAndCut(m: seq<seq<int>>, width: int, image: seq<seq<int>>, edges: seq<seq<int>>,
                               path: seq<int>, rows: seq<seq<int>>, gradient: seq<seq<int>>, pixels: seq<int>, energies: seq<int>)
    requires IsMap(m, width) && 1 <= |path| <= |m|
  {
    && path == SeamPrefix(m, width, |path|)
    && FitsCut(image, path) && rows == CutSeam(image, path) && pixels == SeamValues(image, path)
    && FitsCut(edges, path) && gradient == CutSeam(edges, path) && energies == SeamValues(edges, path)
  }

  /** The loop of SeamCarver.remove: the walk over the map picks each row's
      seam cell and deletes it from that pixel row and gradient row before
      moving on to the next row. */
  method WalkAndCutRows(emap: array2<int>, width: int, image: seq<seq<int>>, edges: seq<seq<int>>)
    returns (path: seq<int>, rows: seq<seq<int>>, gradient: seq<seq<int>>, pixels: seq<int>, energies: seq<int>)
    requires 1 <= emap.Length0 && 2 <= width <= emap.Length1
    requires emap.Length0 <= |image| && emap.Length0 <= |edges|
    requires forall h :: 0 <= h < emap.Length0 ==> |image[h]| >= width && |edges[h]| >= width
    ensures path == ExtractSeam(Grid(emap), width)
    ensures FitsCut(image, path) && FitsCut(edges, path)
    ensures rows == CutSeam(image, path) && gradient == CutSeam(edges, path)
    ensures pixels == SeamValues(image, path) && energies == SeamValues(edges, path)
  {
    path, rows, gradient, pixels, energies := WalkStart(emap, width, image, edges);
    for h := 1 to emap.Length0
      invariant |path| == h && WalkedAndCut(Grid(emap), width, image, edges, path, rows, gradient, pixels, energies)
    {
      path, rows, gradient, pixels, energies := WalkStep(emap, width, image, edges, path, rows, gradient, pixels, energies);
    }
  }

  /** The first pass of SeamCarver.remove's loop: the cheapest column of map
      row 0, and its cell deleted from the first pixel and gradient rows. */
  method WalkStart(emap: array2<int>, width: int, image: seq<seq<int>>, edges: seq<seq<int>>)
    returns (path: seq<int>, rows: seq<seq<int>>, gradient: seq<seq<int>>, pixels: seq<int>, energies: seq<int>)
    requires 1 <= emap.Length0 && 2 <= width <= emap.Length1
    requires emap.Length0 <= |image| && emap.Length0 <= |edges|
    requires forall h :: 0 <= h < emap.Length0 ==> |image[h]| >= width && |edges[h]| >= width
    ensures |path| == 1 && WalkedAndCut(Grid(emap), width, image, edges, path, rows, gradient, pixels, energies)
  {
    var minIndex := Argmin(RowOf(emap, 0), width);
    assert RowOf(emap, 0) == Grid(emap)[0];
    rows, pixels := CutNext(image, [], image, [], minIndex);
    gradient, energies := CutNext(edges, [], edges, [], minIndex);
    path := [minIndex];
  }

  /** One pass of SeamCarver.remove's loop: the next column of the walk, and
      its cell deleted from the pixel and gradient rows. */
  method WalkStep(emap: array2<int>, width: int, ghost image: seq<seq<int>>, ghost edges: seq<seq<int>>,
                  path: seq<int>, rows: seq<seq<int>>, gradient: seq<seq<int>>, pixels: seq<int>, energies: seq<int>)
    returns (path': seq<int>, rows': seq<seq<int>>, gradient': seq<seq<int>>, pixels': seq<int>, energies': seq<int>)
    requires 2 <= width <= emap.Length1 && 1 <= |path| < emap.Length0
    requires emap.Length0 <= |image| && emap.Length0 <= |edges|
    requires forall h :: 0 <= h < emap.Length0 ==> |image[h]| >= width && |edges[h]| >= width
    requires WalkedAndCut(Grid(emap), width, image, edges, path, rows, gradient, pixels, energies)
    ensures |path'| == |path| + 1
    ensures WalkedAndCut(Grid(emap), width, image, edges, path', rows', gradient', pixels', energies')
  {
    var h := |path|;
    var row := RowOf(emap, h);
    assert row == Grid(emap)[h];
    var minIndex := NextColumn(row, path[h - 1], width);
    rows', pixels' := CutNext(rows, pixels, image, path, minIndex);
    gradient', energies' := CutNext(gradient, energies, edges, path, minIndex);
    path' := path + [minIndex];
  }

  class SeamCarver {
    const height: int
    var width: int
    /** Whether add/remove refresh the snapshot buffer. */
    var update: bool
    /** The three undo stacks, top at the end. */
    var seams: seq<seq<int>>
    var values: seq<seq<int>>
    var edgeValues: seq<seq<int>>
    /** The Sobel gradient rows, with the two extra empty rows the Sobel
        result carries. */
    var edges: seq<seq<int>>
    /** Pixel rows. */
    var image: seq<seq<int>>
    /** The flattened snapshot, allocated once for the original size. */
    const data: array<int>
    /** The energy map (`map` in the source), allocated once for the original size. */
    const emap: array2<int>

    /** The pixel rows and the snapshot buffer fit together. */
    ghost predicate Shaped()
      reads this`width, this`image
    {
      && 1 <= height && 2 <= width && width <= emap.Length1
      && |image| == height && (forall h {:trigger |image[h]|} :: 0 <= h < height ==> |image[h]| == width)
      && data.Length == height * emap.Length1
      && height * width <= data.Length
    }

    /** The buffer cells from height * width on are those of `before`:
        updateImage writes only the first height * width cells. */
    ghost predicate TailKept(before: seq<int>)
      reads this, data
    {
      |before| == data.Length && forall k :: 0 <= k < data.Length && height * width <= k ==> data[k] == before[k]
    }

    /** The class invariant: every removed seam can be put back. */
    ghost predicate Valid()
      reads this`width, this`seams, this`values, this`edgeValues, this`image, this`edges
    {
      && Shaped()
      && emap.Length0 == height && emap.Length1 == width + |seams|
      && Stackable(image, height, width, seams, values)
      && Stackable(edges, height, width, seams, edgeValues)
    }

    /** The gradient rows and the map array are big enough for the current
        width (implied by Valid). */
    ghost predicate MapShaped()
      reads this`width, this`edges
    {
      emap.Length0 == height && width <= emap.Length1 && Backward.IsEnergy(edges, height, width)
    }

    /** The map is what energyMap builds from the current gradient rows. */
    ghost predicate MapFresh()
      requires MapShaped()
      reads this, emap
    {
      forall h, w :: 0 <= h < height && 0 <= w < width ==> emap[h, w] == Backward.Cum(edges, height, width, h, w)
    }

    /** The snapshot buffer shows the current image, row after row. */
    ghost predicate ShowsImage()
      requires Shaped()
      reads this, data
    {
      data[..height * width] == Flatten(image, width)
    }

    /** The snapshot shows the current image with `path` painted `color`. */
    ghost predicate ShowsHighlight(path: seq<int>, color: int)
      requires Shaped() && |path| >= height
      reads this, data
    {
      data[..height * width] == Flatten(Highlighted(image, path, color), width)
    }

    /** SeamCarver(int[][]): Sobel gradient, map, then the pixel copy. */
    constructor (src: array2<int>)
      requires src.Length0 >= 1 && src.Length1 >= 2
      ensures Valid() && MapFresh() && ShowsImage()
      ensures height == src.Length0 && width == src.Length1 && update
      ensures seams == [] && values == [] && edgeValues == []
      ensures image == Grid(src)
      ensures |edges| == height + 2 && edges[height] == [] && edges[height + 1] == []
      ensures forall h, w :: 0 <= h < height && 0 <= w < width ==>
                edges[h][w] == SobelAt(PaddedGrayGrid(src), h + 1, w + 1)
      ensures fresh(data) && fresh(emap)
    {
      height := src.Length0;
      width := src.Length1;
      update := true;
      seams, values, edgeValues := [], [], [];
      var gradient := Sobel(src);
      edges := gradient;
      data := new int[src.Length0 * src.Length1];
      emap := new int[src.Length0, src.Length1];
      var pixels := RowsOf(src);
      image := pixels;
      new;
      RowFits(height - 1, height, width, emap.Length1);
      EnergyMap();
      UpdateImagePlain();
    }

    method GetHeight() returns (h: int)
      ensures h == height
    {
      return height;
    }

    method GetWidth() returns (w: int)
      ensures w == width
    {
      return width;
    }

    /** The snapshot buffer itself, not a copy. */
    method GetImage() returns (d: array<int>)
      ensures d == data
    {
      return data;
    }

    method SetUpdate(update: bool)
      modifies this
      ensures this.update == update
      ensures width == old(width) && image == old(image) && edges == old(edges)
      ensures seams == old(seams) && values == old(values) && edgeValues == old(edgeValues)
    {
      this.update := update;
    }

    /** Overwrites one gradient cell (column x of row y); the map is not rebuilt. */
    method SetEdge(x: int, y: int, val: int)
      requires Valid() && 0 <= y < height && 0 <= x < width
      modifies this
      ensures Valid()
      ensures edges == old(edges)[y := old(edges)[y][x := val]]
      ensures width == old(width) && image == old(image) && update == old(update)
      ensures seams == old(seams) && values == old(values) && edgeValues == old(edgeValues)
    {
      edges := edges[y := edges[y][x := val]];
    }

    /** The state change of a successful remove of seam `p`. */
    twostate predicate Removed(p: seq<int>)
      requires old(Valid()) && IsSeam(p, height, old(width))
      reads this
    {
      State() == Cut(old(State()), p) && update == old(update)
    }

    /** The state change of a successful add: the top entries are popped and
        spliced back into the rows. */
    twostate predicate Restored()
      requires old(Valid()) && |old(seams)| > 0
      reads this
    {
      var n := |old(seams)| - 1;
      var p := old(seams)[n];
      assert IsSeam(p, height, old(width) + 1);
      && width == old(width) + 1
      && seams == old(seams)[..n] && values == old(values)[..n] && edgeValues == old(edgeValues)[..n]
      && image == SpliceSeam(old(image), p, old(values)[n])
      && edges == SpliceSeam(old(edges), p, old(edgeValues)[n])
      && update == old(update)
    }

    /** The walk-and-cut loop of remove: each row's seam cell is chosen and
        deleted from the pixel and gradient rows before the next row is looked
        at. */
    method WalkAndCut() returns (path: seq<int>, pixels: seq<int>, energies: seq<int>)
      requires Valid() && width > 2
      modifies this
      ensures path == ExtractSeam(Grid(emap), old(width)) && IsSeam(path, height, old(width))
      ensures FitsCut(old(image), path) && FitsCut(old(edges), path)
      ensures image == CutSeam(old(image), path) && edges == CutSeam(old(edges), path)
      ensures pixels == SeamValues(old(image), path) && energies == SeamValues(old(edges), path)
      ensures width == old(width) - 1 && update == old(update) && Shaped()
      ensures seams == old(seams) && values == old(values) && edgeValues == old(edgeValues)
    {
      assert forall h :: 0 <= h < height ==> |image[h]| == width && |edges[h]| == width;
      var rows, gradient;
      path, rows, gradient, pixels, energies := WalkAndCutRows(emap, width, image, edges);
      image, edges := rows, gradient;
      width := width - 1;
      RowFits(height - 1, height, width, emap.Length1);
    }

    /** SeamCarver.remove(highlight, color): refuses at width 2; otherwise
        cuts the greedy seam out, refreshes the snapshot if asked to, rebuilds
        the map and pushes the undo record.  On a fresh map the seam taken
        has the least total gradient of all connected seams. */
    method Remove(highlight: bool, color: int) returns (ok: bool)
      requires Valid()
      modifies this, data, emap
      ensures Valid()
      ensures ok <==> old(width) != 2
      ensures !ok ==> unchanged(this) && unchanged(data) && unchanged(emap)
      ensures ok ==> var p := ExtractSeam(old(Grid(emap)), old(width));
                     && IsSeam(p, height, old(width)) && Removed(p) && MapFresh()
                     && FitsCut(old(image), p) && FitsCut(old(edges), p)
                     && (update && highlight ==> ShowsHighlight(p, color))
      ensures ok && update && !highlight ==> ShowsImage()
      ensures ok && !update ==> unchanged(data)
      ensures TailKept(old(data[..]))
      ensures ok && old(MapFresh()) ==>
                var p := ExtractSeam(old(Grid(emap)), old(width));
                forall q :: IsSeam(q, height, old(width)) ==>
                  Backward.SeamEnergy(old(edges), height, old(width), p)
                  <= Backward.SeamEnergy(old(edges), height, old(width), q)
    {
      if width == 2 {
        return false;
      }
      if MapFresh() {
        Backward.BackwardSeamOptimal(Grid(emap), edges, height, width);
      }
      var path := Carve(highlight, color);
      return true;
    }

    /** The body of a successful remove, in the source's order: walk and cut,
        refresh the snapshot, rebuild the map, push the undo record. */
    method Carve(highlight: bool, color: int) returns (path: seq<int>)
      requires Valid() && width > 2
      modifies this, data, emap
      ensures path == ExtractSeam(old(Grid(emap)), old(width)) && IsSeam(path, height, old(width))
      ensures FitsCut(old(image), path) && FitsCut(old(edges), path)
      ensures Valid() && Removed(path) && MapFresh()
      ensures update && highlight ==> ShowsHighlight(path, color)
      ensures update && !highlight ==> ShowsImage()
      ensures !update ==> unchanged(data)
      ensures TailKept(old(data[..]))
    {
      ghost var p := ExtractSeam(Grid(emap), width);
      StackablePush(image, height, width, seams, values, p);
      StackablePush(edges, height, width, seams, edgeValues, p);
      var pixels, energies;
      path, pixels, energies := WalkAndCut();
      Refresh(path, highlight, color);
      Backward.EnergyMap(emap, edges, height, width);
      Push(path, pixels, energies);
    }

    /** The pushes at the end of remove, onto stacks that the cut rows fit
        once the new entry is on top. */
    method Push(path: seq<int>, pixels: seq<int>, energies: seq<int>)
      requires Shaped() && emap.Length0 == height && emap.Length1 == width + 1 + |seams|
      requires Stackable(image, height, width, seams + [path], values + [pixels])
      requires Stackable(edges, height, width, seams + [path], edgeValues + [energies])
      modifies this
      ensures Valid()
      ensures seams == old(seams) + [path] && values == old(values) + [pixels] && edgeValues == old(edgeValues) + [energies]
      ensures width == old(width) && image == old(image) && edges == old(edges) && update == old(update)
    {
      seams := seams + [path];
      values := values + [pixels];
      edgeValues := edgeValues + [energies];
    }

    /** SeamCarver.add(highlight, color): refuses on an empty stack; otherwise
        pops the undo record, splices it back, refreshes the snapshot if
        asked to and rebuilds the map. */
    method Add(highlight: bool, color: int) returns (ok: bool)
      requires Valid()
      modifies this, data, emap
      ensures Valid()
      ensures ok <==> old(|seams|) > 0
      ensures !ok ==> unchanged(this) && unchanged(data) && unchanged(emap)
      ensures ok ==> Restored() && MapFresh()
      ensures ok && update && highlight ==> ShowsHighlight(old(seams)[|old(seams)| - 1], color)
      ensures ok && update && !highlight ==> ShowsImage()
      ensures ok && !update ==> unchanged(data)
      ensures TailKept(old(data[..]))
    {
      if |seams| == 0 {
        return false;
      }
      var path := SpliceState();
      Refresh(path, highlight, color);
      EnergyMap();
      return true;
    }

    /** The pops and row edits of a successful add. */
    method SpliceState() returns (path: seq<int>)
      requires Valid() && |seams| > 0
      modifies this
      ensures Valid() && Restored() && path == old(seams)[|old(seams)| - 1]
    {
      var n := |seams| - 1;
      var pixels, energies;
      path, pixels, energies := seams[n], values[n], edgeValues[n];
      StackablePop(image, height, width, seams, values);
      StackablePop(edges, height, width, seams, edgeValues);
      seams, values, edgeValues := seams[..n], values[..n], edgeValues[..n];
      image := SpliceRows(image, path, pixels);
      edges := SpliceRows(edges, path, energies);
      width := width + 1;
      RowFits(height - 1, height, width, emap.Length1);
    }

    /** The snapshot refresh inside add and remove. */
    method Refresh(path: seq<int>, highlight: bool, color: int)
      requires Shaped() && |path| >= height
      modifies data
      ensures update && highlight ==> ShowsHighlight(path, color)
      ensures update && !highlight ==> ShowsImage()
      ensures !update ==> unchanged(data)
      ensures TailKept(old(data[..]))
    {
      if update {
        if highlight {
          UpdateImagePath(path, color);
        } else {
          UpdateImagePlain();
        }
      }
    }

    /** SeamCarver.energyMap: the backward recurrence over the gradient rows. */
    method EnergyMap()
      requires Valid()
      modifies emap
      ensures MapFresh()
    {
      Backward.EnergyMap(emap, edges, height, width);
    }

    /** A remove followed by an add puts everything back: the add pops the
        entry the remove pushed and splices the cut cells back where they
        were, so the width, the stacks, the pixel rows and the gradient rows
        are those from before the remove. */
    method RemoveThenAddRestores(highlight: bool, color: int)
      requires Valid() && width > 2
      modifies this, data, emap
      ensures Valid() && MapFresh()
      ensures State() == old(State()) && update == old(update)
    {
      ghost var p := ExtractSeam(Grid(emap), width);
      ghost var before := State();
      var removed := Remove(highlight, color);
      CutThenSplice(before.image, p);
      CutThenSplice(before.energy, p);
      var added := Add(highlight, color);
    }

    /** The width, the stacks and the rows, as one value; the gradient rows
        and their stack stand for the energy ones. */
    function State(): Carving
      reads this`width, this`seams, this`values, this`edgeValues, this`image, this`edges
    {
      Carving(width, seams, values, edgeValues, image, edges)
    }

    /** Greedy.Batch for the gradient energy and this carver's height.  The
        state and the map are passed as values, so that a loop invariant can
        name them while the fields change. */
    ghost predicate Batched(n: int, start: Carving, m0: seq<seq<int>>, now: Carving, m: seq<seq<int>>,
                            trail: seq<seq<seq<int>>>, maps: seq<seq<seq<int>>>)
    {
      Batch(BackwardEnergy, height, n, start, m0, now, m, trail, maps)
    }

    /** Where a batch of removes that started from the state `start` and the
        map `m0` stands after `n` removes: Batched of the current fields.
        This view is the one RemoveMany's caller sees. */
    ghost predicate BatchState(n: int, start: Carving, m0: seq<seq<int>>, trail: seq<seq<seq<int>>>, maps: seq<seq<seq<int>>>)
      reads this`width, this`seams, this`values, this`edgeValues, this`image, this`edges, emap
    {
      Batched(n, start, m0, State(), Grid(emap), trail, maps)
    }

    /** SeamCarver.remove(count, highlight, color): no-op returning 0 at width
        2; otherwise at least one remove, and min(count, width - 2) of them
        when count is positive, only the last of which refreshes the
        snapshot.  A count of zero or less still removes one seam.  The first
        seam taken is the walk over the map as it stood; every later one is
        the walk over the fresh map of the rows the earlier cuts left, and
        putting the new seams back restores the old rows. */
    method RemoveMany(count: int, highlight: bool, color: int)
      returns (removed: int, ghost trail: seq<seq<seq<int>>>, ghost maps: seq<seq<seq<int>>>)
      requires Valid()
      modifies this, data, emap
      ensures Valid()
      ensures old(width) == 2 ==> removed == 0 && unchanged(this) && unchanged(data) && unchanged(emap)
      ensures old(width) != 2 ==>
                && removed == Min(Max(count, 1), old(width) - 2) && update && MapFresh()
                && BatchState(removed, old(State()), old(Grid(emap)), trail, maps)
                && (highlight ==> ShowsHighlight(seams[|seams| - 1], color))
                && (!highlight ==> ShowsImage())
                && TailKept(old(data[..]))
    {
      if width == 2 {
        return 0, [], [];
      }
      removed, trail, maps := RemoveBatch(count, highlight, color, State(), Grid(emap), data[..]);
    }

    /** RemoveMany past its no-op test, with the state, the map and the
        snapshot it starts from passed in as `start`, `m0` and `data0`. */
    method RemoveBatch(count: int, highlight: bool, color: int, ghost start: Carving, ghost m0: seq<seq<int>>,
                       ghost data0: seq<int>)
      returns (removed: int, ghost trail: seq<seq<seq<int>>>, ghost maps: seq<seq<seq<int>>>)
      requires Valid() && width > 2
      requires start == State() && m0 == Grid(emap) && data0 == data[..]
      modifies this, data, emap
      ensures Valid() && MapFresh() && update && removed == Min(Max(count, 1), start.width - 2)
      ensures BatchState(removed, start, m0, trail, maps)
      ensures highlight ==> ShowsHighlight(seams[|seams| - 1], color)
      ensures !highlight ==> ShowsImage()
      ensures TailKept(data0)
    {
      var index;
      ghost var now, m;
      index, now, m, trail, maps := RemoveRun(count, highlight, color, start, m0);
      removed := index - 1;
      now, m, trail, maps := StepGreedy(true, highlight, color, index - 2, start, m0, now, m, trail, maps);
    }

    /** The loop of RemoveMany, with `index++ < count && width > 3` as its
        test, between setUpdate(false) and setUpdate(true): it stops one
        remove short, leaving that one to the caller.  `now` and `m` name the
        state and the map as they stand. */
    method RemoveRun(count: int, highlight: bool, color: int, ghost start: Carving, ghost m0: seq<seq<int>>)
      returns (index: int, ghost now: Carving, ghost m: seq<seq<int>>,
               ghost trail: seq<seq<seq<int>>>, ghost maps: seq<seq<seq<int>>>)
      requires Valid() && width > 2
      requires start == State() && m0 == Grid(emap)
      modifies this, data, emap
      ensures Valid() && update
      ensures unchanged(data)
      ensures index - 1 == Min(Max(count, 1), start.width - 2) && width > 2
      ensures now == State() && m == Grid(emap) && Batched(index - 2, start, m0, now, m, trail, maps)
    {
      ghost var d := |seams|;
      assert seams[d..] == [] && values[d..] == [] && edgeValues[d..] == [];
      assert seams[..d] == seams && values[..d] == values && edgeValues[..d] == edgeValues;
      update := false;
      now, m := start, m0;
      trail, maps := [edges], [];
      index := 1;
      while true
        invariant Valid() && !update
        invariant unchanged(data)
        invariant 1 <= index <= Max(count, 1) && width >= 3
        invariant now == State() && m == Grid(emap)
        invariant Batched(index - 1, start, m0, now, m, trail, maps)
        decreases count - index
      {
        var more := index < count;
        index := index + 1;
        if !(more && width > 3) {
          break;
        }
        now, m, trail, maps := StepGreedy(false, highlight, color, index - 2, start, m0, now, m, trail, maps);
      }
      update := true;
    }

    /** One remove of a batch: it reads its seam off the map as it stands
        (the map the batch started on, for the first remove, or the map the
        remove before rebuilt), so it extends the run of the batch by that
        seam, that map and the rows the cut leaves. */
    method StepGreedy(refresh: bool, highlight: bool, color: int, ghost n: int, ghost start: Carving,
                      ghost m0: seq<seq<int>>, ghost now: Carving, ghost m: seq<seq<int>>,
                      ghost trail0: seq<seq<seq<int>>>, ghost maps0: seq<seq<seq<int>>>)
      returns (ghost next: Carving, ghost m': seq<seq<int>>,
               ghost trail: seq<seq<seq<int>>>, ghost maps: seq<seq<seq<int>>>)
      requires Valid() && width > 2 && now == State() && m == Grid(emap) && update == refresh
      requires Batched(n, start, m0, now, m, trail0, maps0)
      modifies this, data, emap
      ensures Valid() && MapFresh() && update == refresh
      ensures next == State() && m' == Grid(emap)
      ensures Batched(n + 1, start, m0, next, m', trail, maps)
      ensures refresh && highlight ==> ShowsHighlight(seams[|seams| - 1], color)
      ensures refresh && !highlight ==> ShowsImage()
      ensures !refresh ==> unchanged(data)
      ensures TailKept(old(data[..]))
    {
      var path := Carve(highlight, color);
      MapIsFresh();
      next, m' := State(), Grid(emap);
      BatchedStep(n, start, m0, now, m, trail0, maps0, path, next, m');
      trail, maps := trail0 + [next.energy], maps0 + [m];
    }

    /** A fresh map is the one Greedy.IsFreshMap describes for the gradient rows. */
    lemma MapIsFresh()
      requires MapShaped() && MapFresh()
      ensures Backward.IsEnergy(edges, height, width)
      ensures IsFreshMap(BackwardEnergy, edges, height, width, Grid(emap))
    {
      var m := Grid(emap);
      forall h, w | 0 <= h < height && 0 <= w < width
        ensures m[h][w] == FreshCell(BackwardEnergy, edges, height, width, h, w)
      {
        assert m[h][w] == emap[h, w];
      }
    }

    /** Greedy.BatchStep for this carver. */
    lemma BatchedStep(n: int, start: Carving, m0: seq<seq<int>>, now: Carving, m: seq<seq<int>>,
                      trail: seq<seq<seq<int>>>, maps: seq<seq<seq<int>>>, p: seq<int>, next: Carving, m': seq<seq<int>>)
      requires Batched(n, start, m0, now, m, trail, maps) && now.width > 2
      requires |m| == height && IsMap(m, now.width) && p == ExtractSeam(m, now.width)
      requires FitsCut(now.image, p) && FitsCut(now.energy, p) && next == Cut(now, p)
      requires Backward.IsEnergy(next.energy, height, next.width) && IsFreshMap(BackwardEnergy, next.energy, height, next.width, m')
      ensures Batched(n + 1, start, m0, next, m', trail + [next.energy], maps + [m])
    {
      BatchStep(BackwardEnergy, height, n, start, m0, now, m, trail, maps, next, m');
    }

    /** SeamCarver.add(count, highlight, color): no-op returning 0 on an empty
        stack; otherwise at least one add, and min(count, stack depth) of them
        when count is positive, only the last of which refreshes the snapshot.
        A count of zero or less still adds one seam back. */
    method AddMany(count: int, highlight: bool, color: int) returns (added: int)
      requires Valid()
      modifies this, data, emap
      ensures Valid()
      ensures |old(seams)| == 0 ==>
                added == 0 && unchanged(this) && unchanged(data) && unchanged(emap)
      ensures |old(seams)| > 0 ==>
                && added == Min(Max(count, 1), |old(seams)|)
                && width == old(width) + added && update && MapFresh()
                && seams == old(seams)[..|old(seams)| - added]
                && values == old(values)[..|old(seams)| - added]
                && edgeValues == old(edgeValues)[..|old(seams)| - added]
                && Undoes(old(image), height, old(width), old(seams)[|seams|..], old(values)[|seams|..], image)
                && Undoes(old(edges), height, old(width), old(seams)[|seams|..], old(edgeValues)[|seams|..], edges)
                && (highlight ==> ShowsHighlight(old(seams)[|seams|], color))
                && (!highlight ==> ShowsImage())
                && TailKept(old(data[..]))
    {
      if |seams| == 0 {
        return 0;
      }
      update := false;
      var index := AddRun(count, highlight, color);
      added := index - 1;
      update := true;
      StepAdded(highlight, color, old(image), old(edges), old(width), old(seams), old(values), old(edgeValues));
    }

    /** The loop of AddMany, with `index++ < count && seams.size() > 1` as its
        test: it stops one add short, leaving that one to the caller. */
    method AddRun(count: int, highlight: bool, color: int) returns (index: int)
      requires Valid() && !update && |seams| > 0
      modifies this, data, emap
      ensures Valid() && !update
      ensures unchanged(data)
      ensures index - 1 == Min(Max(count, 1), |old(seams)|) && |seams| == |old(seams)| - (index - 2) && |seams| > 0
      ensures width == old(width) + (index - 2)
      ensures seams == old(seams)[..|seams|] && values == old(values)[..|seams|]
      ensures edgeValues == old(edgeValues)[..|seams|]
      ensures Undoes(old(image), height, old(width), old(seams)[|seams|..], old(values)[|seams|..], image)
      ensures Undoes(old(edges), height, old(width), old(seams)[|seams|..], old(edgeValues)[|seams|..], edges)
    {
      ghost var depth := |seams|;
      StackableSuffix(image, height, width, seams, values, depth);
      StackableSuffix(edges, height, width, seams, edgeValues, depth);
      assert old(seams)[depth..] == [] && old(values)[depth..] == [] && old(edgeValues)[depth..] == [];
      index := 1;
      while true
        invariant Valid() && !update
        invariant unchanged(data)
        invariant 1 <= index <= Max(count, 1) && index <= depth && |seams| == depth - (index - 1)
        invariant width == old(width) + (index - 1)
        invariant seams == old(seams)[..|seams|] && values == old(values)[..|seams|]
        invariant edgeValues == old(edgeValues)[..|seams|]
        invariant Undoes(old(image), height, old(width), old(seams)[|seams|..], old(values)[|seams|..], image)
        invariant Undoes(old(edges), height, old(width), old(seams)[|seams|..], old(edgeValues)[|seams|..], edges)
        decreases count - index
      {
        var more := index < count;
        index := index + 1;
        if !(more && |seams| > 1) {
          break;
        }
        StepAdded(highlight, color, old(image), old(edges), old(width), old(seams), old(values), old(edgeValues));
      }
    }

    /** One add of AddMany's loop.  The stacks are a prefix of the stacks
        `paths`, `vals` and `evals` that held when the batch began, whose
        entries beyond that prefix rebuild the current rows from the rows of
        that time (`pixels`, `gradient` at width `w0`); the add pops one more
        entry and keeps that so. */
    method StepAdded(highlight: bool, color: int, ghost pixels: seq<seq<int>>, ghost gradient: seq<seq<int>>, ghost w0: int,
                     ghost paths: seq<seq<int>>, ghost vals: seq<seq<int>>, ghost evals: seq<seq<int>>)
      requires Valid() && 1 <= |seams| <= |paths|
      requires Stackable(pixels, height, w0, paths, vals) && Stackable(gradient, height, w0, paths, evals)
      requires seams == paths[..|seams|] && values == vals[..|seams|] && edgeValues == evals[..|seams|]
      requires Undoes(pixels, height, w0, paths[|seams|..], vals[|seams|..], image)
      requires Undoes(gradient, height, w0, paths[|seams|..], evals[|seams|..], edges)
      modifies this, data, emap
      ensures Valid() && MapFresh() && width == old(width) + 1 && update == old(update)
      ensures |seams| == old(|seams|) - 1
      ensures seams == paths[..|seams|] && values == vals[..|seams|] && edgeValues == evals[..|seams|]
      ensures Undoes(pixels, height, w0, paths[|seams|..], vals[|seams|..], image)
      ensures Undoes(gradient, height, w0, paths[|seams|..], evals[|seams|..], edges)
      ensures update && highlight ==> ShowsHighlight(paths[|seams|], color)
      ensures update && !highlight ==> ShowsImage()
      ensures !update ==> unchanged(data)
      ensures TailKept(old(data[..]))
    {
      var k := |seams|;
      UndoesPop(pixels, height, w0, paths, vals, image, k);
      UndoesPop(gradient, height, w0, paths, evals, edges, k);
      PopBelow(paths, k);
      PopBelow(vals, k);
      PopBelow(evals, k);
      var ok := Add(highlight, color);
    }

    /** SeamCarver.updateImage(highlight, color): highlights the top of the
        seam stack only when asked to and the stack is not empty. */
    method UpdateImage(highlight: bool, color: int)
      requires Valid()
      modifies data
      ensures highlight && |seams| > 0 ==> ShowsHighlight(seams[|seams| - 1], color)
      ensures !(highlight && |seams| > 0) ==> ShowsImage()
      ensures TailKept(old(data[..]))
    {
      if highlight && |seams| > 0 {
        UpdateImagePath(seams[|seams| - 1], color);
      } else {
        UpdateImagePlain();
      }
    }

    /** The inner copy loop of updateImage with its running index: writes the
        first `width` cells of `row` from `index` on and returns the index
        after them. */
    method CopyRow(index: int, row: seq<int>) returns (next: int)
      requires 0 <= index && 0 <= width && index + width <= data.Length && |row| >= width
      modifies data
      ensures next == index + width
      ensures data[..index] == old(data[..index])
      ensures data[index..next] == row[..width]
      ensures data[next..] == old(data[next..])
    {
      next := index;
      for w := 0 to width
        invariant next == index + w
        invariant forall j :: 0 <= j < w ==> data[index + j] == row[j]
        invariant forall k :: 0 <= k < data.Length && !(index <= k < next) ==> data[k] == old(data[k])
      {
        data[next] := row[w];
        next := next + 1;
      }
    }

    /** The painting loop of updateImage(path, color): the cells of the row at
        `base` whose column is within one of `pathIndex` become `color`. */
    method PaintRow(base: int, row: seq<int>, pathIndex: int, color: int)
      requires 0 <= base && 0 <= width && base + width <= data.Length && |row| == width
      requires data[base..base + width] == row
      modifies data
      ensures data[..base] == old(data[..base])
      ensures data[base..base + width] == HighlightRow(row, pathIndex, color)
      ensures data[base + width..] == old(data[base + width..])
    {
      for i := pathIndex - 1 to pathIndex + 2
        invariant forall j :: 0 <= j < width ==> data[base + j] == (if pathIndex - 1 <= j < i then color else row[j])
        invariant forall k :: 0 <= k < data.Length && !(base <= k < base + width) ==> data[k] == old(data[k])
      {
        if i < 0 || i >= width {
          continue;
        }
        data[base + i] := color;
      }
      forall j | 0 <= j < width
        ensures data[base..base + width][j] == HighlightRow(row, pathIndex, color)[j]
      {
        assert data[base..base + width][j] == data[base + j];
      }
    }

    /** SeamCarver.updateImage(): copies every row into the buffer, keeping
        one running index. */
    method UpdateImagePlain()
      requires Shaped()
      modifies data
      ensures ShowsImage()
      ensures TailKept(old(data[..]))
    {
      var index := 0;
      for h := 0 to height
        invariant index == h * width && 0 <= index <= height * width
        invariant data[..index] == Flatten(image[..h], width)
        invariant TailKept(old(data[..]))
      {
        RowFits(h, height, width, emap.Length1);
        var start := index;
        index := CopyRow(index, image[h]);
        FlattenStep(image, width, h, data[..], start);
        assert (h + 1) * width == index;
      }
      assert image[..height] == image;
    }

    /** SeamCarver.updateImage(path, color): copies every row with a running
        index, then paints the cells path[h] - 1 .. path[h] + 1 that lie inside
        the row. */
    method UpdateImagePath(path: seq<int>, color: int)
      requires Shaped() && |path| >= height
      modifies data
      ensures ShowsHighlight(path, color)
      ensures TailKept(old(data[..]))
    {
      ghost var painted := Highlighted(image, path, color);
      var index := 0;
      for h := 0 to height
        invariant index == h * width && 0 <= index <= height * width
        invariant data[..index] == Flatten(painted[..h], width)
        invariant TailKept(old(data[..]))
      {
        RowFits(h, height, width, emap.Length1);
        ghost var before := data[..];
        var start := index;
        index := CopyRow(index, image[h]);
        var pathIndex := path[h];
        PaintRow(h * width, image[h], pathIndex, color);
        assert painted[h][..width] == painted[h];
        FlattenStep(painted, width, h, data[..], start);
        assert (h + 1) * width == index;
        SuffixKept(data[..], before, index, height * width);
      }
      assert painted[..height] == painted;
    }
  }
}
