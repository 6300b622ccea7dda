/** SeamCarverBase together with its two subclasses.  SeamCarverBackward and
    SeamCarverForward differ only in how they build the energy rows and the
    map, so one class carries a tag saying which of the two it is; the base
    operations are AddSeam/RemoveSeam, and Add/Remove are the subclass
    overrides that rebuild the map after a successful base call. */
module CarverBase {
  import opened Utils
  import opened Seams
  import opened Greedy
  import Backward
  import Forward

  class SeamCarverBase {
    /** Backward (Sobel energy, bottom-up map) or Forward (gray levels, top-down map). */
    const kind: EnergyType
    const height: int
    var width: int
    /** Whether add/remove refresh the snapshot buffer. */
    var update: bool
    /** The three undo stacks, top at the end. */
    var seams: seq<seq<int>>
    var values: seq<seq<int>>
    var energyValues: seq<seq<int>>
    /** Energy rows; a Sobel energy carries two extra empty rows at the end. */
    var energy: seq<seq<int>>
    /** Pixel rows. */
    var image: seq<seq<int>>
    /** The flattened snapshot, allocated once for the original size. */
    const data: array<int>
    /** The energy map (`map` in the source), allocated once for the original size. */
    const emap: array2<int>
    /** SeamCarverForward's cumulative table; an empty array for Backward. */
    const minimums: array2<int>

    /** The pixel rows and the snapshot buffer fit together. */
    ghost predicate Shaped()
      reads this`width, this`image
    {
      && 1 <= height && 2 <= width && width <= emap.Length1
      && |image| == height && (forall h {:trigger |image[h]|} :: 0 <= h < height ==> |image[h]| == width)
      && data.Length == height * emap.Length1
      && height * width <= data.Length
    }

    /** The buffer cells from height * width on are those of `before`:
        updateImage writes only the first height * width cells. */
    ghost predicate TailKept(before: seq<int>)
      reads this, data
    {
      |before| == data.Length && forall k :: 0 <= k < data.Length && height * width <= k ==> data[k] == before[k]
    }

    /** The class invariant: every removed seam can be put back, so the
        current width plus the stack depth is the original width. */
    ghost predicate Valid()
      reads this`width, this`seams, this`values, this`energyValues, this`image, this`energy
    {
      && Shaped()
      && emap.Length0 == height && emap.Length1 == width + |seams|
      && minimums != emap
      && (kind == ForwardEnergy ==> minimums.Length0 == height && minimums.Length1 == emap.Length1)
      && Stackable(image, height, width, seams, values)
      && Stackable(energy, height, width, seams, energyValues)
    }

    /** The energy rows and the map arrays are big enough for the current
        width (implied by Valid). */
    ghost predicate MapShaped()
      reads this`width, this`energy
    {
      && emap.Length0 == height && width <= emap.Length1
      && Backward.IsEnergy(energy, height, width)
      && (kind == ForwardEnergy ==> minimums.Length0 == height && width <= minimums.Length1)
    }

    /** The map is what energyMap builds from the current energy rows. */
    ghost predicate MapFresh()
      requires MapShaped()
      reads this, emap, minimums
    {
      match kind
      case BackwardEnergy =>
        forall h, w {:trigger Backward.Cum(energy, height, width, h, w)} ::
          0 <= h < height && 0 <= w < width ==> emap[h, w] == Backward.Cum(energy, height, width, h, w)
      case ForwardEnergy =>
        forall h, w {:trigger Forward.Acc(energy, height, width, h, w)} {:trigger Forward.Local(energy, height, width, h, w)} ::
          0 <= h < height && 0 <= w < width ==>
          minimums[h, w] == Forward.Acc(energy, height, width, h, w) && emap[h, w] == Forward.Local(energy, height, width, h, w)
    }

    /** The snapshot buffer shows the current image, row after row. */
    ghost predicate ShowsImage()
      requires Shaped()
      reads this, data
    {
      data[..height * width] == Flatten(image, width)
    }

    /** The snapshot shows the current image with `path` painted `color`. */
    ghost predicate ShowsHighlight(path: seq<int>, color: int)
      requires Shaped() && |path| >= height
      reads this, data
    {
      data[..height * width] == Flatten(Highlighted(image, path, color), width)
    }

    /** The constructors of SeamCarverBase and of the chosen subclass: copy the
        pixels, derive the energy rows, build the map. */
    constructor (src: array2<int>, kind: EnergyType)
      requires src.Length0 >= 1 && src.Length1 >= 2
      ensures Valid() && MapFresh() && ShowsImage()
      ensures this.kind == kind && height == src.Length0 && width == src.Length1 && update
      ensures seams == [] && values == [] && energyValues == []
      ensures image == Grid(src)
      ensures kind == BackwardEnergy ==>
                && |energy| == height + 2 && energy[height] == [] && energy[height + 1] == []
                && forall h, w :: 0 <= h < height && 0 <= w < width ==>
                     energy[h][w] == SobelAt(PaddedGrayGrid(src), h + 1, w + 1)
      ensures kind == ForwardEnergy ==>
                && |energy| == height
                && forall h, w :: 0 <= h < height && 0 <= w < width ==> energy[h][w] == Gray(src[h, w])
      ensures fresh(data) && fresh(emap) && fresh(minimums)
    {
      this.kind := kind;
      height := src.Length0;
      width := src.Length1;
      update := true;
      seams, values, energyValues := [], [], [];
      data := new int[src.Length0 * src.Length1];
      emap := new int[src.Length0, src.Length1];
      if kind == ForwardEnergy {
        minimums := new int[src.Length0, src.Length1];
      } else {
        minimums := new int[0, 0];
      }
      var pixels := RowsOf(src);
      var energies;
      if kind == BackwardEnergy {
        energies := Sobel(src);
      } else {
        var gray := Grayscale(src);
        energies := RowsOf(gray);
      }
      image, energy := pixels, energies;
      new;
      UpdateImagePlain();
      EnergyMap();
    }

    method GetWidth() returns (w: int)
      ensures w == width
    {
      return width;
    }

    method GetHeight() returns (h: int)
      ensures h == height
    {
      return height;
    }

    /** The snapshot buffer itself, not a copy. */
    method GetImage() returns (d: array<int>)
      ensures d == data
    {
      return data;
    }

    method SetUpdate(update: bool)
      modifies this
      ensures this.update == update
      ensures width == old(width) && image == old(image) && energy == old(energy)
      ensures seams == old(seams) && values == old(values) && energyValues == old(energyValues)
    {
      this.update := update;
    }

    /** Overwrites one energy cell (column x of row y); the map is not rebuilt. */
    method SetEnergy(x: int, y: int, val: int)
      requires Valid() && 0 <= y < height && 0 <= x < width
      modifies this
      ensures Valid()
      ensures energy == old(energy)[y := old(energy)[y][x := val]]
      ensures width == old(width) && image == old(image) && update == old(update)
      ensures seams == old(seams) && values == old(values) && energyValues == old(energyValues)
    {
      energy := energy[y := energy[y][x := val]];
    }

    /** The state change of a successful remove of seam `p`. */
    twostate predicate Removed(p: seq<int>)
      requires old(Valid()) && IsSeam(p, height, old(width))
      reads this
    {
      State() == Cut(old(State()), p) && update == old(update)
    }

    /** The state change of a successful add: the top entries are popped and
        spliced back into the rows. */
    twostate predicate Restored()
      requires old(Valid()) && |old(seams)| > 0
      reads this
    {
      var n := |old(seams)| - 1;
      var p := old(seams)[n];
      assert IsSeam(p, height, old(width) + 1);
      && width == old(width) + 1
      && seams == old(seams)[..n] && values == old(values)[..n] && energyValues == old(energyValues)[..n]
      && image == SpliceSeam(old(image), p, old(values)[n])
      && energy == SpliceSeam(old(energy), p, old(energyValues)[n])
      && update == old(update)
    }

    /** The greedy walk of remove over the current map: first minimum of
        row 0, then the cheapest of the cells below with the fixed tie-break. */
    method FindSeam() returns (path: seq<int>)
      requires Valid()
      ensures path == ExtractSeam(Grid(emap), width)
    {
      ghost var m := Grid(emap);
      var minIndex := Argmin(RowOf(emap, 0), width);
      path := [minIndex];
      for h := 1 to height
        invariant path == SeamPrefix(m, width, h) && minIndex == path[h - 1]
      {
        var row := RowOf(emap, h);
        assert row == m[h];
        minIndex := NextColumn(row, minIndex, width);
        path := path + [minIndex];
      }
    }

    /** The row edits and pushes of a successful remove.  The source pushes
        after refreshing the snapshot; the refresh reads only the path, so
        the order does not matter. */
    method CutState(path: seq<int>)
      requires Valid() && width > 2 && IsSeam(path, height, width)
      modifies this
      ensures FitsCut(old(image), path) && FitsCut(old(energy), path)
      ensures Valid() && Removed(path)
    {
      StackablePush(image, height, width, seams, values, path);
      StackablePush(energy, height, width, seams, energyValues, path);
      var newImage, pixels := CutRows(image, path);
      var newEnergy, energies := CutRows(energy, path);
      image, energy := newImage, newEnergy;
      width := width - 1;
      seams := seams + [path];
      values := values + [pixels];
      energyValues := energyValues + [energies];
      RowFits(height - 1, height, width, emap.Length1);
    }

    /** The pops and row edits of a successful add. */
    method SpliceState() returns (path: seq<int>)
      requires Valid() && |seams| > 0
      modifies this
      ensures Valid() && Restored() && path == old(seams)[|old(seams)| - 1]
    {
      var n := |seams| - 1;
      var pixels, energies;
      path, pixels, energies := seams[n], values[n], energyValues[n];
      StackablePop(image, height, width, seams, values);
      StackablePop(energy, height, width, seams, energyValues);
      seams, values, energyValues := seams[..n], values[..n], energyValues[..n];
      image := SpliceRows(image, path, pixels);
      energy := SpliceRows(energy, path, energies);
      width := width + 1;
      RowFits(height - 1, height, width, emap.Length1);
    }

    /** The snapshot refresh at the end of add and remove. */
    method Refresh(path: seq<int>, highlight: bool, color: int)
      requires Shaped() && |path| >= height
      modifies data
      ensures update && highlight ==> ShowsHighlight(path, color)
      ensures update && !highlight ==> ShowsImage()
      ensures !update ==> unchanged(data)
      ensures TailKept(old(data[..]))
    {
      if update {
        if highlight {
          UpdateImagePath(path, color);
        } else {
          UpdateImagePlain();
        }
      }
    }

    /** SeamCarverBase.remove(highlight, color): refuses at width 2; otherwise
        cuts the greedy seam out of the pixel and energy rows and pushes the
        undo record.  The map is left alone. */
    method RemoveSeam(highlight: bool, color: int) returns (ok: bool)
      requires Valid()
      modifies this, data
      ensures Valid()
      ensures ok <==> old(width) != 2
      ensures !ok ==> unchanged(this) && unchanged(data)
      ensures ok ==> var p := ExtractSeam(Grid(emap), old(width));
                     && IsSeam(p, height, old(width)) && Removed(p)
                     && FitsCut(old(image), p) && FitsCut(old(energy), p)
                     && (update && highlight ==> ShowsHighlight(p, color))
      ensures ok && update && !highlight ==> ShowsImage()
      ensures ok && !update ==> unchanged(data)
      ensures TailKept(old(data[..]))
    {
      if width == 2 {
        return false;
      }
      var path := FindSeam();
      CutState(path);
      Refresh(path, highlight, color);
      return true;
    }

    /** SeamCarverBase.add(highlight, color): refuses on an empty stack;
        otherwise pops the undo record and splices it back into the rows. */
    method AddSeam(highlight: bool, color: int) returns (ok: bool)
      requires Valid()
      modifies this, data
      ensures Valid()
      ensures ok <==> old(|seams|) > 0
      ensures !ok ==> unchanged(this) && unchanged(data)
      ensures ok ==> Restored()
      ensures ok && update && highlight ==> ShowsHighlight(old(seams)[|old(seams)| - 1], color)
      ensures ok && update && !highlight ==> ShowsImage()
      ensures ok && !update ==> unchanged(data)
      ensures TailKept(old(data[..]))
    {
      if |seams| == 0 {
        return false;
      }
      var path := SpliceState();
      Refresh(path, highlight, color);
      return true;
    }

    /** The subclass's energyMap: the backward recurrence, or the forward
        tables. */
    method EnergyMap()
      requires Valid()
      modifies emap, minimums
      ensures MapFresh()
    {
      if kind == BackwardEnergy {
        Backward.EnergyMap(emap, energy, height, width);
      } else {
        Forward.EnergyMap(minimums, emap, energy, height, width);
      }
    }

    /** The subclasses' remove(highlight, color): the base remove, then a
        rebuilt map if it succeeded.  On a fresh Backward map the seam taken
        has the least total energy of all connected seams. */
    method Remove(highlight: bool, color: int) returns (ok: bool)
      requires Valid()
      modifies this, data, emap, minimums
      ensures Valid()
      ensures ok <==> old(width) != 2
      ensures !ok ==> unchanged(this) && unchanged(data) && unchanged(emap) && unchanged(minimums)
      ensures ok ==> var p := ExtractSeam(old(Grid(emap)), old(width));
                     && IsSeam(p, height, old(width)) && Removed(p) && MapFresh()
                     && FitsCut(old(image), p) && FitsCut(old(energy), p)
                     && (update && highlight ==> ShowsHighlight(p, color))
      ensures ok && update && !highlight ==> ShowsImage()
      ensures ok && !update ==> unchanged(data)
      ensures TailKept(old(data[..]))
      ensures ok && kind == BackwardEnergy && old(MapFresh()) ==>
                var p := ExtractSeam(old(Grid(emap)), old(width));
                forall q :: IsSeam(q, height, old(width)) ==>
                  Backward.SeamEnergy(old(energy), height, old(width), p)
                  <= Backward.SeamEnergy(old(energy), height, old(width), q)
    {
      if kind == BackwardEnergy && MapFresh() {
        SeamTakenIsOptimal();
      }
      ghost var p;
      ok, p := RemoveAndRebuild(highlight, color);
    }

    /** On a fresh Backward map, the seam the walk takes has the least total
        energy of all connected seams. */
    lemma SeamTakenIsOptimal()
      requires Valid() && kind == BackwardEnergy && MapFresh()
      ensures var p := ExtractSeam(Grid(emap), width);
              forall q :: IsSeam(q, height, width) ==>
                Backward.SeamEnergy(energy, height, width, p) <= Backward.SeamEnergy(energy, height, width, q)
    {
      Backward.BackwardSeamOptimal(Grid(emap), energy, height, width);
    }

    /** A fresh map, read as rows, is the map energyMap builds from the
        current energy rows. */
    lemma MapIsFresh()
      requires MapShaped() && MapFresh()
      ensures Backward.IsEnergy(energy, height, width)
      ensures IsFreshMap(kind, energy, height, width, Grid(emap))
    {
      var m := Grid(emap);
      forall h, w | 0 <= h < height && 0 <= w < width
        ensures m[h][w] == FreshCell(kind, energy, height, width, h, w)
      {
        assert m[h][w] == emap[h, w];
      }
    }

    /** The body of the subclasses' remove. */
    method RemoveAndRebuild(highlight: bool, color: int) returns (ok: bool, ghost p: seq<int>)
      requires Valid()
      modifies this, data, emap, minimums
      ensures Valid()
      ensures ok <==> old(width) != 2
      ensures !ok ==> unchanged(this) && unchanged(data) && unchanged(emap) && unchanged(minimums)
      ensures ok ==> && p == ExtractSeam(old(Grid(emap)), old(width))
                     && IsSeam(p, height, old(width)) && Removed(p) && MapFresh()
                     && FitsCut(old(image), p) && FitsCut(old(energy), p)
                     && (update && highlight ==> ShowsHighlight(p, color))
      ensures ok && update && !highlight ==> ShowsImage()
      ensures ok && !update ==> unchanged(data)
      ensures TailKept(old(data[..]))
    {
      p := [];
      ok := RemoveSeam(highlight, color);
      if ok {
        p := ExtractSeam(old(Grid(emap)), old(width));
        EnergyMap();
      }
    }

    /** The subclasses' add(highlight, color): the base add, then a rebuilt
        map if it succeeded. */
    method Add(highlight: bool, color: int) returns (ok: bool)
      requires Valid()
      modifies this, data, emap, minimums
      ensures Valid()
      ensures ok <==> old(|seams|) > 0
      ensures !ok ==> unchanged(this) && unchanged(data) && unchanged(emap) && unchanged(minimums)
      ensures ok ==> Restored() && MapFresh()
      ensures ok && update && highlight ==> ShowsHighlight(old(seams)[|old(seams)| - 1], color)
      ensures ok && update && !highlight ==> ShowsImage()
      ensures ok && !update ==> unchanged(data)
      ensures TailKept(old(data[..]))
    {
      ok := AddSeam(highlight, color);
      if ok {
        EnergyMap();
      }
    }

    /** A remove followed by an add puts everything back: the add pops the
        entry the remove pushed and splices the cut cells back where they
        were, so the width, the stacks, the pixel rows and the energy rows are
        those from before the remove. */
    method RemoveThenAddRestores(highlight: bool, color: int)
      requires Valid() && width > 2
      modifies this, data, emap, minimums
      ensures Valid() && MapFresh()
      ensures State() == old(State()) && update == old(update)
    {
      ghost var p := ExtractSeam(Grid(emap), width);
      ghost var before := State();
      var removed := Remove(highlight, color);
      CutThenSplice(before.image, p);
      CutThenSplice(before.energy, p);
      var added := Add(highlight, color);
    }

    /** The width, the stacks and the rows, as one value. */
    function State(): Carving
      reads this`width, this`seams, this`values, this`energyValues, this`image, this`energy
    {
      Carving(width, seams, values, energyValues, image, energy)
    }

    /** Greedy.Batch for this carver's energy type and height.  The state and
        the map are passed as values, so that a loop invariant can name them
        while the fields change. */
    ghost predicate Batched(n: int, start: Carving, m0: seq<seq<int>>, now: Carving, m: seq<seq<int>>,
                            trail: seq<seq<seq<int>>>, maps: seq<seq<seq<int>>>)
    {
      Batch(kind, height, n, start, m0, now, m, trail, maps)
    }

    /** Where a batch of removes that started from the state `start` and the
        map `m0` stands after `n` removes: Batched of the current fields.
        This view is the one RemoveMany's caller sees. */
    ghost predicate BatchState(n: int, start: Carving, m0: seq<seq<int>>, trail: seq<seq<seq<int>>>, maps: seq<seq<seq<int>>>)
      reads this`width, this`seams, this`values, this`energyValues, this`image, this`energy, emap
    {
      Batched(n, start, m0, State(), Grid(emap), trail, maps)
    }

    /** SeamCarverBase.remove(count, highlight, color): no-op returning 0 when
        the width is 2 or count <= 0; otherwise min(count, width - 2) removes,
        only the last of which refreshes the snapshot.  The first seam taken
        is the walk over the map as it stood; every later one is the walk over
        the fresh map of the rows the earlier cuts left, and putting the new
        seams back restores the old rows. */
    method RemoveMany(count: int, highlight: bool, color: int)
      returns (removed: int, ghost trail: seq<seq<seq<int>>>, ghost maps: seq<seq<seq<int>>>)
      requires Valid()
      modifies this, data, emap, minimums
      ensures Valid()
      ensures old(width) == 2 || count <= 0 ==>
                removed == 0 && unchanged(this) && unchanged(data) && unchanged(emap) && unchanged(minimums)
      ensures old(width) != 2 && count > 0 ==>
                && removed == Min(count, old(width) - 2) && update && MapFresh()
                && BatchState(removed, old(State()), old(Grid(emap)), trail, maps)
                && (highlight ==> ShowsHighlight(seams[|seams| - 1], color))
                && (!highlight ==> ShowsImage())
                && TailKept(old(data[..]))
    {
      if width == 2 || count <= 0 {
        return 0, [], [];
      }
      removed, trail, maps := RemoveBatch(count, highlight, color, State(), Grid(emap), data[..]);
    }

    /** RemoveMany past its no-op test, with the state, the map and the
        snapshot it starts from passed in as `start`, `m0` and `data0`. */
    method RemoveBatch(count: int, highlight: bool, color: int, ghost start: Carving, ghost m0: seq<seq<int>>,
                       ghost data0: seq<int>)
      returns (removed: int, ghost trail: seq<seq<seq<int>>>, ghost maps: seq<seq<seq<int>>>)
      requires Valid() && width > 2 && count > 0
      requires start == State() && m0 == Grid(emap) && data0 == data[..]
      modifies this, data, emap, minimums
      ensures Valid() && MapFresh() && update && removed == Min(count, start.width - 2)
      ensures BatchState(removed, start, m0, trail, maps)
      ensures highlight ==> ShowsHighlight(seams[|seams| - 1], color)
      ensures !highlight ==> ShowsImage()
      ensures TailKept(data0)
    {
      var index;
      ghost var now, m;
      index, now, m, trail, maps := RemoveRun(count, highlight, color, start, m0);
      removed := index - 1;
      now, m, trail, maps := StepGreedy(true, highlight, color, index - 2, start, m0, now, m, trail, maps);
    }

    /** The loop of RemoveMany, with `index++ < count && width > 3` as its
        test, between setUpdate(false) and setUpdate(true): it stops one
        remove short, leaving that one to the caller.  `now` and `m` name the
        state and the map as they stand. */
    method RemoveRun(count: int, highlight: bool, color: int, ghost start: Carving, ghost m0: seq<seq<int>>)
      returns (index: int, ghost now: Carving, ghost m: seq<seq<int>>,
               ghost trail: seq<seq<seq<int>>>, ghost maps: seq<seq<seq<int>>>)
      requires Valid() && width > 2 && count > 0
      requires start == State() && m0 == Grid(emap)
      modifies this, data, emap, minimums
      ensures Valid() && update
      ensures unchanged(data)
      ensures index - 1 == Min(count, start.width - 2) && width > 2
      ensures now == State() && m == Grid(emap) && Batched(index - 2, start, m0, now, m, trail, maps)
    {
      ghost var d := |seams|;
      assert seams[d..] == [] && values[d..] == [] && energyValues[d..] == [];
      assert seams[..d] == seams && values[..d] == values && energyValues[..d] == energyValues;
      update := false;
      now, m := start, m0;
      trail, maps := [energy], [];
      index := 1;
      while true
        invariant Valid() && !update
        invariant unchanged(data)
        invariant 1 <= index <= count && width >= 3
        invariant now == State() && m == Grid(emap)
        invariant Batched(index - 1, start, m0, now, m, trail, maps)
        decreases count - index
      {
        var more := index < count;
        index := index + 1;
        if !(more && width > 3) {
          break;
        }
        now, m, trail, maps := StepGreedy(false, highlight, color, index - 2, start, m0, now, m, trail, maps);
      }
      update := true;
    }

    /** One remove of a batch: it reads its seam off the map as it stands
        (the map the batch started on, for the first remove, or the map the
        remove before rebuilt), so it extends the run of the batch by that
        seam, that map and the rows the cut leaves. */
    method StepGreedy(refresh: bool, highlight: bool, color: int, ghost n: int, ghost start: Carving,
                      ghost m0: seq<seq<int>>, ghost now: Carving, ghost m: seq<seq<int>>,
                      ghost trail0: seq<seq<seq<int>>>, ghost maps0: seq<seq<seq<int>>>)
      returns (ghost next: Carving, ghost m': seq<seq<int>>,
               ghost trail: seq<seq<seq<int>>>, ghost maps: seq<seq<seq<int>>>)
      requires Valid() && width > 2 && now == State() && m == Grid(emap) && update == refresh
      requires Batched(n, start, m0, now, m, trail0, maps0)
      modifies this, data, emap, minimums
      ensures Valid() && MapFresh() && update == refresh
      ensures next == State() && m' == Grid(emap)
      ensures Batched(n + 1, start, m0, next, m', trail, maps)
      ensures refresh && highlight ==> ShowsHighlight(seams[|seams| - 1], color)
      ensures refresh && !highlight ==> ShowsImage()
      ensures !refresh ==> unchanged(data)
      ensures TailKept(old(data[..]))
    {
      var ok;
      ghost var p;
      ok, p := RemoveAndRebuild(highlight, color);
      MapIsFresh();
      next, m' := State(), Grid(emap);
      BatchedStep(n, start, m0, now, m, trail0, maps0, p, next, m');
      trail, maps := trail0 + [next.energy], maps0 + [m];
    }

    /** Greedy.BatchStep for this carver. */
    lemma BatchedStep(n: int, start: Carving, m0: seq<seq<int>>, now: Carving, m: seq<seq<int>>,
                      trail: seq<seq<seq<int>>>, maps: seq<seq<seq<int>>>, p: seq<int>, next: Carving, m': seq<seq<int>>)
      requires Batched(n, start, m0, now, m, trail, maps) && now.width > 2
      requires |m| == height && IsMap(m, now.width) && p == ExtractSeam(m, now.width)
      requires FitsCut(now.image, p) && FitsCut(now.energy, p) && next == Cut(now, p)
      requires Backward.IsEnergy(next.energy, height, next.width) && IsFreshMap(kind, next.energy, height, next.width, m')
      ensures Batched(n + 1, start, m0, next, m', trail + [next.energy], maps + [m])
    {
      BatchStep(kind, height, n, start, m0, now, m, trail, maps, next, m');
    }

    /** SeamCarverBase.add(count, highlight, color): no-op returning 0 on an
        empty stack or count <= 0; otherwise min(count, stack depth) adds,
        only the last of which refreshes the snapshot.  The rows end up as the
        old rows with every popped seam spliced back, the top one first. */
    method AddMany(count: int, highlight: bool, color: int) returns (added: int)
      requires Valid()
      modifies this, data, emap, minimums
      ensures Valid()
      ensures |old(seams)| == 0 || count <= 0 ==>
                added == 0 && unchanged(this) && unchanged(data) && unchanged(emap) && unchanged(minimums)
      ensures |old(seams)| > 0 && count > 0 ==>
                && added == Min(count, |old(seams)|)
                && width == old(width) + added && update && MapFresh()
                && seams == old(seams)[..|old(seams)| - added]
                && values == old(values)[..|old(seams)| - added]
                && energyValues == old(energyValues)[..|old(seams)| - added]
                && Undoes(old(image), height, old(width), old(seams)[|seams|..], old(values)[|seams|..], image)
                && Undoes(old(energy), height, old(width), old(seams)[|seams|..], old(energyValues)[|seams|..], energy)
                && (highlight ==> ShowsHighlight(old(seams)[|seams|], color))
                && (!highlight ==> ShowsImage())
                && TailKept(old(data[..]))
    {
      if |seams| == 0 || count <= 0 {
        return 0;
      }
      update := false;
      var index := AddRun(count, highlight, color);
      added := index - 1;
      update := true;
      StepAdded(highlight, color, old(image), old(energy), old(width), old(seams), old(values), old(energyValues));
    }

    /** The loop of AddMany, with `index++ < count && seams.size() > 1` as its
        test: it stops one add short, leaving that one to the caller. */
    method AddRun(count: int, highlight: bool, color: int) returns (index: int)
      requires Valid() && !update && |seams| > 0 && count > 0
      modifies this, data, emap, minimums
      ensures Valid() && !update
      ensures unchanged(data)
      ensures index - 1 == Min(count, |old(seams)|) && |seams| == |old(seams)| - (index - 2) && |seams| > 0
      ensures width == old(width) + (index - 2)
      ensures seams == old(seams)[..|seams|] && values == old(values)[..|seams|]
      ensures energyValues == old(energyValues)[..|seams|]
      ensures Undoes(old(image), height, old(width), old(seams)[|seams|..], old(values)[|seams|..], image)
      ensures Undoes(old(energy), height, old(width), old(seams)[|seams|..], old(energyValues)[|seams|..], energy)
    {
      ghost var depth := |seams|;
      StackableSuffix(image, height, width, seams, values, depth);
      StackableSuffix(energy, height, width, seams, energyValues, depth);
      assert old(seams)[depth..] == [] && old(values)[depth..] == [] && old(energyValues)[depth..] == [];
      index := 1;
      while true
        invariant Valid() && !update
        invariant unchanged(data)
        invariant 1 <= index <= count && index <= depth && |seams| == depth - (index - 1)
        invariant width == old(width) + (index - 1)
        invariant seams == old(seams)[..|seams|] && values == old(values)[..|seams|]
        invariant energyValues == old(energyValues)[..|seams|]
        invariant Undoes(old(image), height, old(width), old(seams)[|seams|..], old(values)[|seams|..], image)
        invariant Undoes(old(energy), height, old(width), old(seams)[|seams|..], old(energyValues)[|seams|..], energy)
        decreases count - index
      {
        var more := index < count;
        index := index + 1;
        if !(more && |seams| > 1) {
          break;
        }
        StepAdded(highlight, color, old(image), old(energy), old(width), old(seams), old(values), old(energyValues));
      }
    }

    /** One add of AddMany's loop.  The stacks are a prefix of the stacks
        `paths`, `vals` and `evals` that held when the batch began, whose
        entries beyond that prefix rebuild the current rows from the rows of
        that time (`pixels`, `energies` at width `w0`); the add pops one more
        entry and keeps that so. */
    method StepAdded(highlight: bool, color: int, ghost pixels: seq<seq<int>>, ghost energies: seq<seq<int>>, ghost w0: int,
                     ghost paths: seq<seq<int>>, ghost vals: seq<seq<int>>, ghost evals: seq<seq<int>>)
      requires Valid() && 1 <= |seams| <= |paths|
      requires Stackable(pixels, height, w0, paths, vals) && Stackable(energies, height, w0, paths, evals)
      requires seams == paths[..|seams|] && values == vals[..|seams|] && energyValues == evals[..|seams|]
      requires Undoes(pixels, height, w0, paths[|seams|..], vals[|seams|..], image)
      requires Undoes(energies, height, w0, paths[|seams|..], evals[|seams|..], energy)
      modifies this, data, emap, minimums
      ensures Valid() && MapFresh() && width == old(width) + 1 && update == old(update)
      ensures |seams| == old(|seams|) - 1
      ensures seams == paths[..|seams|] && values == vals[..|seams|] && energyValues == evals[..|seams|]
      ensures Undoes(pixels, height, w0, paths[|seams|..], vals[|seams|..], image)
      ensures Undoes(energies, height, w0, paths[|seams|..], evals[|seams|..], energy)
      ensures update && highlight ==> ShowsHighlight(paths[|seams|], color)
      ensures update && !highlight ==> ShowsImage()
      ensures !update ==> unchanged(data)
      ensures TailKept(old(data[..]))
    {
      var k := |seams|;
      UndoesPop(pixels, height, w0, paths, vals, image, k);
      UndoesPop(energies, height, w0, paths, evals, energy, k);
      PopBelow(paths, k);
      PopBelow(vals, k);
      PopBelow(evals, k);
      var ok := Add(highlight, color);
    }

    /** SeamCarverBase.updateImage(highlight, color): highlights the top of the
        seam stack only when asked to and the stack is not empty. */
    method UpdateImage(highlight: bool, color: int)
      requires Valid()
      modifies data
      ensures highlight && |seams| > 0 ==> ShowsHighlight(seams[|seams| - 1], color)
      ensures !(highlight && |seams| > 0) ==> ShowsImage()
      ensures TailKept(old(data[..]))
    {
      if highlight && |seams| > 0 {
        UpdateImagePath(seams[|seams| - 1], color);
      } else {
        UpdateImagePlain();
      }
    }

    /** The inner loop of updateImage: writes the first `width` cells of `row`
        from index `base` on; nothing else changes. */
    method CopyRow(base: int, row: seq<int>)
      requires 0 <= base && 0 <= width && base + width <= data.Length && |row| >= width
      modifies data
      ensures data[..base] == old(data[..base])
      ensures data[base..base + width] == row[..width]
      ensures data[base + width..] == old(data[base + width..])
    {
      for w := 0 to width
        invariant forall j :: 0 <= j < w ==> data[base + j] == row[j]
        invariant forall k :: 0 <= k < data.Length && !(base <= k < base + w) ==> data[k] == old(data[k])
      {
        data[base + w] := row[w];
      }
    }

    /** The painting loop of updateImage(path, color): the cells of the row at
        `base` whose column is within one of `pathIndex` become `color`. */
    method PaintRow(base: int, row: seq<int>, pathIndex: int, color: int)
      requires 0 <= base && 0 <= width && base + width <= data.Length && |row| == width
      requires data[base..base + width] == row
      modifies data
      ensures data[..base] == old(data[..base])
      ensures data[base..base + width] == HighlightRow(row, pathIndex, color)
      ensures data[base + width..] == old(data[base + width..])
    {
      for i := pathIndex - 1 to pathIndex + 2
        invariant forall j :: 0 <= j < width ==> data[base + j] == (if pathIndex - 1 <= j < i then color else row[j])
        invariant forall k :: 0 <= k < data.Length && !(base <= k < base + width) ==> data[k] == old(data[k])
      {
        if i < 0 || i >= width {
          continue;
        }
        data[base + i] := color;
      }
      forall j | 0 <= j < width
        ensures data[base..base + width][j] == HighlightRow(row, pathIndex, color)[j]
      {
        assert data[base..base + width][j] == data[base + j];
      }
    }

    /** SeamCarverBase.updateImage(): copies every row into the buffer. */
    method UpdateImagePlain()
      requires Shaped()
      modifies data
      ensures ShowsImage()
      ensures TailKept(old(data[..]))
    {
      for h := 0 to height
        invariant 0 <= h * width <= height * width
        invariant data[..h * width] == Flatten(image[..h], width)
        invariant TailKept(old(data[..]))
      {
        RowFits(h, height, width, emap.Length1);
        var base := h * width;
        CopyRow(base, image[h]);
        FlattenStep(image, width, h, data[..], base);
        assert (h + 1) * width == base + width;
      }
      assert image[..height] == image;
    }

    /** SeamCarverBase.updateImage(path, color): copies every row, then paints
        the cells path[h] - 1 .. path[h] + 1 that lie inside the row. */
    method UpdateImagePath(path: seq<int>, color: int)
      requires Shaped() && |path| >= height
      modifies data
      ensures ShowsHighlight(path, color)
      ensures TailKept(old(data[..]))
    {
      ghost var painted := Highlighted(image, path, color);
      for h := 0 to height
        invariant 0 <= h * width <= height * width
        invariant data[..h * width] == Flatten(painted[..h], width)
        invariant TailKept(old(data[..]))
      {
        RowFits(h, height, width, emap.Length1);
        var base := h * width;
        CopyRow(base, image[h]);
        var pathIndex := path[h];
        PaintRow(base, image[h], pathIndex, color);
        assert painted[h][..width] == painted[h];
        FlattenStep(painted, width, h, data[..], base);
        assert (h + 1) * width == base + width;
      }
      assert painted[..height] == painted;
    }
  }
}
