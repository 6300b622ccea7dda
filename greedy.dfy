/** What a run of removes takes out of the energy rows when the map is
    rebuilt after every remove: each seam is the walk over the map of the
    rows that the earlier cuts left. */
module Greedy {
  import opened Seams
  import Backward
  import Forward

  /** SeamCarverFactory's EnergyType: which energyMap a carver uses. */
  datatype EnergyType = BackwardEnergy | ForwardEnergy

  /** The cell energyMap stores at (h, w): the backward recurrence, or the
      forward local choice. */
  ghost function FreshCell(kind: EnergyType, energy: seq<seq<int>>, height: int, width: int, h: int, w: int): int
    requires Backward.IsEnergy(energy, height, width) && 0 <= h < height && 0 <= w < width
  {
    if kind == BackwardEnergy then Backward.Cum(energy, height, width, h, w)
    else Forward.Local(energy, height, width, h, w)
  }

  /** `m` is the map energyMap builds from the rows `energy`. */
  ghost predicate IsFreshMap(kind: EnergyType, energy: seq<seq<int>>, height: int, width: int, m: seq<seq<int>>)
    requires Backward.IsEnergy(energy, height, width)
  {
    && |m| == height && IsMap(m, width)
    && forall h, w {:trigger FreshCell(kind, energy, height, width, h, w)} ::
         0 <= h < height && 0 <= w < width ==> m[h][w] == FreshCell(kind, energy, height, width, h, w)
  }

  /** With backward energy the seam read off a fresh map has the least total
      energy of all connected seams of the rows. */
  lemma FreshBackwardOptimal(energy: seq<seq<int>>, height: int, width: int, m: seq<seq<int>>)
    requires Backward.IsEnergy(energy, height, width) && IsFreshMap(BackwardEnergy, energy, height, width, m)
    ensures var p := ExtractSeam(m, width);
            forall q :: IsSeam(q, height, width) ==>
              Backward.SeamEnergy(energy, height, width, p) <= Backward.SeamEnergy(energy, height, width, q)
  {
    assert Backward.IsCumMap(m, energy, height, width) by {
      forall h, w | 0 <= h < height && 0 <= w < width
        ensures m[h][w] == Backward.Cum(energy, height, width, h, w)
      {
        assert m[h][w] == FreshCell(BackwardEnergy, energy, height, width, h, w);
      }
    }
    Backward.BackwardSeamOptimal(m, energy, height, width);
  }

  /** Cutting a seam out of rows at least `width` wide leaves rows at least
      `width - 1` wide. */
  lemma CutNarrows(energy: seq<seq<int>>, height: int, width: int, p: seq<int>)
    requires Backward.IsEnergy(energy, height, width) && IsSeam(p, height, width) && width > 2
    ensures FitsCut(energy, p) && Backward.IsEnergy(CutSeam(energy, p), height, width - 1)
  {
  }

  /** A run of removes that started at width `w0` has taken `paths`: `trail`
      holds the energy rows before each cut and, last, the rows left now, and
      `maps` the map each seam was read off.  Every seam is ExtractSeam of its
      map, and the rows after it are the rows before it with it cut out. */
  ghost predicate Run(height: int, w0: int, paths: seq<seq<int>>, trail: seq<seq<seq<int>>>, maps: seq<seq<seq<int>>>)
    decreases |paths|
  {
    && |trail| == |paths| + 1 && |maps| == |paths| && |paths| <= w0 - 2
    && Backward.IsEnergy(trail[|paths|], height, w0 - |paths|)
    && (|paths| > 0 ==>
          var n := |paths| - 1;
          && Run(height, w0, paths[..n], trail[..n + 1], maps[..n])
          && |maps[n]| == height && IsMap(maps[n], w0 - n)
          && paths[n] == ExtractSeam(maps[n], w0 - n)
          && trail[n + 1] == CutSeam(trail[n], paths[n]))
  }

  /** Every map of a run but the first is the fresh map of the rows it was
      read from: the first is whatever map the run started on. */
  ghost predicate Fresh(kind: EnergyType, height: int, w0: int, trail: seq<seq<seq<int>>>, maps: seq<seq<seq<int>>>)
  {
    && |maps| < |trail|
    && forall k :: 0 < k < |maps| ==>
         Backward.IsEnergy(trail[k], height, w0 - k) && IsFreshMap(kind, trail[k], height, w0 - k, maps[k])
  }

  /** One more remove, reading map `m` off the rows left now, extends a run. */
  lemma {:induction false} RunStep(height: int, w0: int, paths: seq<seq<int>>, trail: seq<seq<seq<int>>>,
                maps: seq<seq<seq<int>>>, m: seq<seq<int>>)
    requires Run(height, w0, paths, trail, maps) && w0 - |paths| > 2
    requires |m| == height && IsMap(m, w0 - |paths|)
    ensures var p := ExtractSeam(m, w0 - |paths|);
            && FitsCut(trail[|paths|], p)
            && Run(height, w0, paths + [p], trail + [CutSeam(trail[|paths|], p)], maps + [m])
  {
    var n := |paths|;
    RunLast(height, w0, paths, trail, maps);
    var p := ExtractSeam(m, w0 - n);
    CutNarrows(trail[n], height, w0 - n, p);
    RunSnoc(height, w0, paths, trail, maps, m, p, CutSeam(trail[n], p));
  }

  /** A run extended by a seam read off `m` and the rows its cut leaves is a
      run. */
  lemma {:induction false} RunSnoc(height: int, w0: int, paths: seq<seq<int>>, trail: seq<seq<seq<int>>>,
                                   maps: seq<seq<seq<int>>>, m: seq<seq<int>>, p: seq<int>, next: seq<seq<int>>)
    requires Run(height, w0, paths, trail, maps) && w0 - |paths| > 2
    requires |m| == height && IsMap(m, w0 - |paths|) && p == ExtractSeam(m, w0 - |paths|)
    requires FitsCut(trail[|paths|], p) && next == CutSeam(trail[|paths|], p)
    requires Backward.IsEnergy(next, height, w0 - |paths| - 1)
    ensures Run(height, w0, paths + [p], trail + [next], maps + [m])
  {
    var n := |paths|;
    var paths', trail', maps' := paths + [p], trail + [next], maps + [m];
    assert paths'[..n] == paths && trail'[..n + 1] == trail && maps'[..n] == maps;
    assert paths'[n] == p && maps'[n] == m && trail'[n] == trail[n] && trail'[n + 1] == next;
  }

  /** A map that is fresh for the rows `last` left now, at width `width`,
      keeps the run's later maps fresh. */
  lemma FreshStep(kind: EnergyType, height: int, w0: int, trail: seq<seq<seq<int>>>, maps: seq<seq<seq<int>>>,
                  last: seq<seq<int>>, width: int, next: seq<seq<int>>, m: seq<seq<int>>)
    requires Fresh(kind, height, w0, trail, maps) && |trail| == |maps| + 1
    requires trail[|maps|] == last && width == w0 - |maps|
    requires |maps| > 0 ==> Backward.IsEnergy(last, height, width) && IsFreshMap(kind, last, height, width, m)
    ensures Fresh(kind, height, w0, trail + [next], maps + [m])
  {
    var trail', maps' := trail + [next], maps + [m];
    forall k | 0 < k < |maps'|
      ensures Backward.IsEnergy(trail'[k], height, w0 - k) && IsFreshMap(kind, trail'[k], height, w0 - k, maps'[k])
    {
      assert trail'[k] == trail[k];
      if k < |maps| {
        assert maps'[k] == maps[k];
      }
    }
  }

  /** The first seam of a run is read off the first map, at the width the
      run started with. */
  lemma {:induction false} RunFirst(height: int, w0: int, paths: seq<seq<int>>, trail: seq<seq<seq<int>>>,
                                    maps: seq<seq<seq<int>>>)
    requires Run(height, w0, paths, trail, maps) && |paths| > 0
    ensures |maps[0]| == height && IsMap(maps[0], w0) && paths[0] == ExtractSeam(maps[0], w0)
    decreases |paths|
  {
    var n := |paths| - 1;
    if n > 0 {
      RunFirst(height, w0, paths[..n], trail[..n + 1], maps[..n]);
      assert paths[..n][0] == paths[0] && maps[..n][0] == maps[0];
    }
  }

  /** The last rows of a run are energy rows of the width the run left. */
  lemma {:induction false} RunLast(height: int, w0: int, paths: seq<seq<int>>, trail: seq<seq<seq<int>>>, maps: seq<seq<seq<int>>>)
    requires Run(height, w0, paths, trail, maps)
    ensures Backward.IsEnergy(trail[|paths|], height, w0 - |paths|)
  {
  }

  /** What a remove changes: the width, the three undo stacks (seams, the
      pixels they held, the energies they held) and the pixel and energy
      rows. */
  datatype Carving = Carving(width: int, seams: seq<seq<int>>, values: seq<seq<int>>,
                             energyValues: seq<seq<int>>, image: seq<seq<int>>, energy: seq<seq<int>>)

  /** The state a remove of seam `p` leaves: one column narrower, the seam
      and the cells it held pushed, the seam cut out of both kinds of rows. */
  function Cut(now: Carving, p: seq<int>): Carving
    requires FitsCut(now.image, p) && FitsCut(now.energy, p)
  {
    Carving(now.width - 1, now.seams + [p], now.values + [SeamValues(now.image, p)],
            now.energyValues + [SeamValues(now.energy, p)], CutSeam(now.image, p), CutSeam(now.energy, p))
  }

  /** The entries pushed onto the stacks since `start` undo the cuts made
      since then: replayed onto the rows now, they give back the rows of
      `start`. */
  ghost predicate Undone(height: int, start: Carving, now: Carving)
  {
    var d := |start.seams|;
    && d <= |now.seams| && |now.values| == |now.seams| && |now.energyValues| == |now.seams|
    && now.width == start.width - (|now.seams| - d)
    && now.seams[..d] == start.seams && now.values[..d] == start.values && now.energyValues[..d] == start.energyValues
    && Undoes(now.image, height, now.width, now.seams[d..], now.values[d..], start.image)
    && Undoes(now.energy, height, now.width, now.seams[d..], now.energyValues[d..], start.energy)
  }

  /** A remove keeps the entries pushed since `start` undoing the cuts. */
  lemma UndoneStep(height: int, start: Carving, now: Carving, p: seq<int>, next: Carving)
    requires Undone(height, start, now) && now.width >= 1 && IsSeam(p, height, now.width)
    requires FitsCut(now.image, p) && FitsCut(now.energy, p) && next == Cut(now, p)
    ensures Undone(height, start, next)
  {
    var d := |start.seams|;
    PushAbove(now.seams, p, d);
    PushAbove(now.values, SeamValues(now.image, p), d);
    PushAbove(now.energyValues, SeamValues(now.energy, p), d);
    UndoesPushAs(now.image, height, now.width, now.seams[d..], now.values[d..], start.image, p,
                 next.image, next.width, next.seams[d..], next.values[d..]);
    UndoesPushAs(now.energy, height, now.width, now.seams[d..], now.energyValues[d..], start.energy, p,
                 next.energy, next.width, next.seams[d..], next.energyValues[d..]);
  }

  /** The seams pushed since `start` are the run `trail`/`maps` took from
      the energy rows of `start` to those of `now`, and the map `m` is the
      one the batch started on (no remove yet) or the fresh map of the rows
      left now. */
  ghost predicate Taken(kind: EnergyType, height: int, n: int, start: Carving, m0: seq<seq<int>>,
                        now: Carving, m: seq<seq<int>>, trail: seq<seq<seq<int>>>, maps: seq<seq<seq<int>>>)
    requires |start.seams| <= |now.seams|
  {
    && Run(height, start.width, now.seams[|start.seams|..], trail, maps) && Fresh(kind, height, start.width, trail, maps)
    && |maps| == n
    && trail[0] == start.energy && trail[|trail| - 1] == now.energy
    && (n > 0 ==> maps[0] == m0)
    && (n == 0 ==> m == m0)
    && (n > 0 ==> Backward.IsEnergy(now.energy, height, now.width) && IsFreshMap(kind, now.energy, height, now.width, m))
  }

  /** Where a batch of removes stands after `n` of them, counted from the
      state `start` and the map `m0` it started on: the stacks grew by `n`
      entries that undo the cuts, and those seams are the run the greedy
      walk took. */
  ghost predicate Batch(kind: EnergyType, height: int, n: int, start: Carving, m0: seq<seq<int>>,
                        now: Carving, m: seq<seq<int>>, trail: seq<seq<seq<int>>>, maps: seq<seq<seq<int>>>)
  {
    && n >= 0 && |now.seams| == |start.seams| + n
    && Undone(height, start, now) && Taken(kind, height, n, start, m0, now, m, trail, maps)
  }

  /** A remove of the seam read off the map `m`, after which `m'` is the fresh
      map of the rows left, takes a batch one remove further. */
  lemma BatchStep(kind: EnergyType, height: int, n: int, start: Carving, m0: seq<seq<int>>, now: Carving,
                  m: seq<seq<int>>, trail: seq<seq<seq<int>>>, maps: seq<seq<seq<int>>>, next: Carving, m': seq<seq<int>>)
    requires Batch(kind, height, n, start, m0, now, m, trail, maps) && now.width > 2
    requires |m| == height && IsMap(m, now.width)
    requires var p := ExtractSeam(m, now.width);
             FitsCut(now.image, p) && FitsCut(now.energy, p) && next == Cut(now, p)
    requires Backward.IsEnergy(next.energy, height, next.width) && IsFreshMap(kind, next.energy, height, next.width, m')
    ensures Batch(kind, height, n + 1, start, m0, next, m', trail + [next.energy], maps + [m])
  {
    UndoneStep(height, start, now, ExtractSeam(m, now.width), next);
    TakenStep(kind, height, n, start, m0, now, m, trail, maps, next, m');
  }

  /** The Taken half of BatchStep. */
  lemma TakenStep(kind: EnergyType, height: int, n: int, start: Carving, m0: seq<seq<int>>, now: Carving,
                  m: seq<seq<int>>, trail: seq<seq<seq<int>>>, maps: seq<seq<seq<int>>>, next: Carving, m': seq<seq<int>>)
    requires n >= 0 && |now.seams| == |start.seams| + n && now.width == start.width - n > 2
    requires Taken(kind, height, n, start, m0, now, m, trail, maps)
    requires |m| == height && IsMap(m, now.width)
    requires var p := ExtractSeam(m, now.width);
             FitsCut(now.image, p) && FitsCut(now.energy, p) && next == Cut(now, p)
    requires Backward.IsEnergy(next.energy, height, next.width) && IsFreshMap(kind, next.energy, height, next.width, m')
    ensures Taken(kind, height, n + 1, start, m0, next, m', trail + [next.energy], maps + [m])
  {
    var d, w0, p := |start.seams|, start.width, ExtractSeam(m, now.width);
    PushAbove(now.seams, p, d);
    assert trail[n] == now.energy && w0 - n == now.width;
    assert next.seams[d..] == now.seams[d..] + [p] && next.energy == CutSeam(trail[n], p);
    RunStep(height, w0, now.seams[d..], trail, maps, m);
    FreshStep(kind, height, w0, trail, maps, now.energy, now.width, next.energy, m);
    assert (trail + [next.energy])[0] == trail[0];
    assert n > 0 ==> (maps + [m])[0] == maps[0];
  }

  /** The first seam a batch took was read off the map the batch started on. */
  lemma BatchFirst(kind: EnergyType, height: int, n: int, start: Carving, m0: seq<seq<int>>, now: Carving,
                   m: seq<seq<int>>, trail: seq<seq<seq<int>>>, maps: seq<seq<seq<int>>>)
    requires Batch(kind, height, n, start, m0, now, m, trail, maps) && n > 0
    ensures |m0| == height && IsMap(m0, start.width) && now.seams[|start.seams|] == ExtractSeam(m0, start.width)
  {
    var d := |start.seams|;
    RunFirst(height, start.width, now.seams[d..], trail, maps);
    assert now.seams[d] == now.seams[d..][0];
  }
}
