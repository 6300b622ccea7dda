/** Seam geometry shared by both carvers: the greedy walk that picks a seam on
    an energy map, cutting a seam out of per-row lists and splicing it back,
    and the row-major layout of the snapshot buffer. */
module Seams {
  import opened Utils

  // ---------------------------------------------------------------------
  // Choosing a seam
  // ---------------------------------------------------------------------

  /** `r` is where the walk goes from column `c` when `row` is the next row of
      the energy map and only its first `width` cells are live: a cheapest
      in-range neighbour, ties broken left first, then right for an interior
      cell, while column 0 prefers staying. */
  ghost predicate IsNextColumn(row: seq<int>, c: int, width: int, r: int)
    requires 2 <= width <= |row| && 0 <= c < width
  {
    && 0 <= r < width && c - 1 <= r <= c + 1
    && (forall k :: 0 <= k < width && c - 1 <= k && k <= c + 1 ==> row[r] <= row[k])
    && (c > 0 && row[c - 1] == row[r] ==> r == c - 1)
    && (0 < c < width - 1 && row[c + 1] == row[r] ==> r == c - 1 || r == c + 1)
    && (c == 0 && row[0] == row[r] ==> r == 0)
  }

  /** The step of the seam walk in SeamCarverBase.remove: column 0 compares two
      cells, the last column compares two cells, any other column three. */
  function NextColumn(row: seq<int>, c: int, width: int): (r: int)
    requires 2 <= width <= |row| && 0 <= c < width
    ensures IsNextColumn(row, c, width, r)
  {
    if c == 0 then
      (if Min(row[0], row[1]) == row[0] then 0 else 1)
    else if c == width - 1 then
      var minValue := Min(row[width - 2], row[width - 1]);
      if row[width - 2] == minValue then width - 2 else width - 1
    else
      var minValue := Min3(row[c - 1], row[c], row[c + 1]);
      if row[c - 1] == minValue then c - 1
      else if row[c + 1] == minValue then c + 1
      else c
  }

  /** The tie-break rules pin the step down: nothing else satisfies them. */
  lemma NextColumnUnique(row: seq<int>, c: int, width: int, r: int)
    requires 2 <= width <= |row| && 0 <= c < width
    requires IsNextColumn(row, c, width, r)
    ensures r == NextColumn(row, c, width)
  {
    var n := NextColumn(row, c, width);
    assert row[r] <= row[n] && row[n] <= row[r];
  }

  /** A connected seam: one column per row, inside the image, moving at most
      one column between consecutive rows. */
  ghost predicate IsSeam(path: seq<int>, height: int, width: int)
  {
    && |path| == height
    && (forall h :: 0 <= h < height ==> 0 <= path[h] < width)
    && (forall h :: 1 <= h < height ==> path[h - 1] - 1 <= path[h] <= path[h - 1] + 1)
  }

  /** An energy map with at least one row and at least `width` live columns. */
  ghost predicate IsMap(m: seq<seq<int>>, width: int)
  {
    |m| >= 1 && 2 <= width && forall h {:trigger |m[h]|} :: 0 <= h < |m| ==> |m[h]| >= width
  }

  /** The first `n` columns of the seam the walk picks: it starts at the first
      minimum of row 0 and takes NextColumn on every later row. */
  function SeamPrefix(m: seq<seq<int>>, width: int, n: int): (p: seq<int>)
    requires IsMap(m, width) && 1 <= n <= |m|
    ensures IsSeam(p, n, width)
    ensures p[0] == FirstMinIndex(m[0], width)
    ensures forall h :: 1 <= h < n ==> p[h] == NextColumn(m[h], p[h - 1], width)
    decreases n
  {
    if n == 1 then [FirstMinIndex(m[0], width)]
    else
      var q := SeamPrefix(m, width, n - 1);
      q + [NextColumn(m[n - 1], q[n - 2], width)]
  }

  /** The seam SeamCarverBase.remove takes out of an image whose map is `m`. */
  function ExtractSeam(m: seq<seq<int>>, width: int): (p: seq<int>)
    requires IsMap(m, width)
    ensures IsSeam(p, |m|, width)
    ensures IsFirstMin(m[0], width, p[0])
    ensures forall h :: 1 <= h < |m| ==> IsNextColumn(m[h], p[h - 1], width, p[h])
  {
    SeamPrefix(m, width, |m|)
  }

  /** Any path that starts at the first minimum and follows the walk's
      rules is the extracted seam. */
  lemma {:induction false} ExtractSeamUnique(m: seq<seq<int>>, width: int, p: seq<int>)
    requires IsMap(m, width) && |p| == |m|
    requires IsFirstMin(m[0], width, p[0])
    requires forall h :: 0 <= h < |m| ==> 0 <= p[h] < width
    requires forall h :: 1 <= h < |m| ==> IsNextColumn(m[h], p[h - 1], width, p[h])
    ensures p == ExtractSeam(m, width)
  {
    var e := ExtractSeam(m, width);
    FirstMinUnique(m[0], width, p[0], e[0]);
    var h := 1;
    while h < |m|
      invariant 1 <= h <= |m|
      invariant p[..h] == e[..h]
    {
      assert p[h - 1] == e[h - 1];
      NextColumnUnique(m[h], p[h - 1], width, p[h]);
      assert p[..h + 1] == p[..h] + [p[h]] && e[..h + 1] == e[..h] + [e[h]];
      h := h + 1;
    }
    assert p == p[..h] && e == e[..h];
  }

  /** The walk reads only the first `width` columns of the map: two maps that
      agree there give the same seam. */
  lemma ExtractSeamAgree(m1: seq<seq<int>>, m2: seq<seq<int>>, width: int)
    requires IsMap(m1, width) && IsMap(m2, width) && |m1| == |m2|
    requires forall h, w :: 0 <= h < |m1| && 0 <= w < width ==> m1[h][w] == m2[h][w]
    ensures ExtractSeam(m1, width) == ExtractSeam(m2, width)
  {
    var p := ExtractSeam(m1, width);
    assert IsFirstMin(m2[0], width, p[0]);
    forall h | 1 <= h < |m2|
      ensures IsNextColumn(m2[h], p[h - 1], width, p[h])
    {
      assert IsNextColumn(m1[h], p[h - 1], width, p[h]);
    }
    ExtractSeamUnique(m2, width, p);
  }

  // ---------------------------------------------------------------------
  // Cutting and splicing rows
  // ---------------------------------------------------------------------

  /** List.remove(int): the element at `i` leaves, the rest keep their order. */
  function RemoveAt(s: seq<int>, i: int): (r: seq<int>)
    requires 0 <= i < |s|
    ensures |r| == |s| - 1
    ensures forall k {:trigger r[k]} :: 0 <= k < i ==> r[k] == s[k]
    ensures forall k :: i <= k < |r| ==> r[k] == s[k + 1]
  {
    s[..i] + s[i + 1..]
  }

  /** List.add(int, E): `v` lands at `i`, the rest keep their order. */
  function InsertAt(s: seq<int>, i: int, v: int): (r: seq<int>)
    requires 0 <= i <= |s|
    ensures |r| == |s| + 1 && r[i] == v
    ensures forall k {:trigger r[k]} :: 0 <= k < i ==> r[k] == s[k]
    ensures forall k :: i < k < |r| ==> r[k] == s[k - 1]
  {
    s[..i] + [v] + s[i..]
  }

  lemma RemoveThenInsert(s: seq<int>, i: int)
    requires 0 <= i < |s|
    ensures InsertAt(RemoveAt(s, i), i, s[i]) == s
  {
  }

  lemma InsertThenRemove(s: seq<int>, i: int, v: int)
    requires 0 <= i <= |s|
    ensures RemoveAt(InsertAt(s, i, v), i) == s
  {
  }

  /** `path` names an existing cell in each of the first |path| rows. */
  ghost predicate FitsCut(rows: seq<seq<int>>, path: seq<int>)
  {
    |path| <= |rows| && forall h :: 0 <= h < |path| ==> 0 <= path[h] < |rows[h]|
  }

  /** `path` names an insertion point in each of the first |path| rows and
      `vals` holds one value per row. */
  ghost predicate FitsSplice(rows: seq<seq<int>>, path: seq<int>, vals: seq<int>)
  {
    |path| == |vals| <= |rows| && forall h :: 0 <= h < |path| ==> 0 <= path[h] <= |rows[h]|
  }

  /** Rows with the seam's cell deleted from each of the first |path| rows;
      the remaining rows (the padding rows of a Sobel energy) stay as they are. */
  function CutSeam(rows: seq<seq<int>>, path: seq<int>): (r: seq<seq<int>>)
    requires FitsCut(rows, path)
    ensures |r| == |rows|
    ensures forall h {:trigger r[h]} :: 0 <= h < |path| ==> r[h] == RemoveAt(rows[h], path[h])
    ensures forall h {:trigger r[h]} :: |path| <= h < |rows| ==> r[h] == rows[h]
  {
    seq(|rows|, h requires 0 <= h < |rows| => if h < |path| then RemoveAt(rows[h], path[h]) else rows[h])
  }

  /** The cells a seam covers, row by row: what remove pushes as its values. */
  function SeamValues(rows: seq<seq<int>>, path: seq<int>): (v: seq<int>)
    requires FitsCut(rows, path)
    ensures |v| == |path|
    ensures forall h {:trigger v[h]} :: 0 <= h < |path| ==> v[h] == rows[h][path[h]]
  {
    seq(|path|, h requires 0 <= h < |path| => rows[h][path[h]])
  }

  /** Rows with `vals[h]` reinserted at `path[h]` in each of the first |path| rows. */
  function SpliceSeam(rows: seq<seq<int>>, path: seq<int>, vals: seq<int>): (r: seq<seq<int>>)
    requires FitsSplice(rows, path, vals)
    ensures |r| == |rows|
    ensures forall h {:trigger r[h]} :: 0 <= h < |path| ==> r[h] == InsertAt(rows[h], path[h], vals[h])
    ensures forall h {:trigger r[h]} :: |path| <= h < |rows| ==> r[h] == rows[h]
  {
    seq(|rows|, h requires 0 <= h < |rows| => if h < |path| then InsertAt(rows[h], path[h], vals[h]) else rows[h])
  }

  /** Removing a seam and splicing its values back restores every row. */
  lemma CutThenSplice(rows: seq<seq<int>>, path: seq<int>)
    requires FitsCut(rows, path)
    ensures FitsSplice(CutSeam(rows, path), path, SeamValues(rows, path))
    ensures SpliceSeam(CutSeam(rows, path), path, SeamValues(rows, path)) == rows
  {
    var cut := CutSeam(rows, path);
    var back := SpliceSeam(cut, path, SeamValues(rows, path));
    forall h | 0 <= h < |rows|
      ensures back[h] == rows[h]
    {
      if h < |path| {
        RemoveThenInsert(rows[h], path[h]);
      }
    }
  }

  /** Splicing a seam in and cutting the same path again restores every row
      and gives back exactly the spliced values. */
  lemma SpliceThenCut(rows: seq<seq<int>>, path: seq<int>, vals: seq<int>)
    requires FitsSplice(rows, path, vals)
    ensures FitsCut(SpliceSeam(rows, path, vals), path)
    ensures CutSeam(SpliceSeam(rows, path, vals), path) == rows
    ensures SeamValues(SpliceSeam(rows, path, vals), path) == vals
  {
    var spliced := SpliceSeam(rows, path, vals);
    var cut := CutSeam(spliced, path);
    forall h | 0 <= h < |rows|
      ensures cut[h] == rows[h]
    {
      if h < |path| {
        InsertThenRemove(rows[h], path[h], vals[h]);
      }
    }
  }

  /** Cutting one more row: the cut of `path + [c]` is the cut of `path`
      with cell c also deleted from row |path|. */
  lemma CutSeamStep(rows: seq<seq<int>>, path: seq<int>, c: int)
    requires FitsCut(rows, path) && |path| < |rows| && 0 <= c < |rows[|path|]|
    ensures FitsCut(rows, path + [c])
    ensures CutSeam(rows, path + [c]) == CutSeam(rows, path)[|path| := RemoveAt(rows[|path|], c)]
    ensures SeamValues(rows, path + [c]) == SeamValues(rows, path) + [rows[|path|][c]]
  {
    assert forall h :: 0 <= h < |path| ==> (path + [c])[h] == path[h];
  }

  /** One statement of the legacy remove loop, `values.add(row.remove(c))`:
      row |path| of the partly cut rows loses cell c, which is collected. */
  method CutNext(rows: seq<seq<int>>, vals: seq<int>, ghost orig: seq<seq<int>>, ghost path: seq<int>, c: int)
    returns (cut: seq<seq<int>>, collected: seq<int>)
    requires FitsCut(orig, path) && |path| < |orig| && 0 <= c < |orig[|path|]|
    requires rows == CutSeam(orig, path) && vals == SeamValues(orig, path)
    ensures FitsCut(orig, path + [c])
    ensures cut == CutSeam(orig, path + [c]) && collected == SeamValues(orig, path + [c])
  {
    CutSeamStep(orig, path, c);
    var h := |vals|;
    collected := vals + [rows[h][c]];
    cut := rows[h := RemoveAt(rows[h], c)];
  }

  /** The per-row loop of remove: deletes path[h] from each row h < |path|
      and collects what each deletion returned. */
  method CutRows(rows: seq<seq<int>>, path: seq<int>) returns (cut: seq<seq<int>>, vals: seq<int>)
    requires FitsCut(rows, path)
    ensures cut == CutSeam(rows, path) && vals == SeamValues(rows, path)
  {
    cut, vals := rows, [];
    for h := 0 to |path|
      invariant |cut| == |rows| && |vals| == h
      invariant forall i :: 0 <= i < h ==> cut[i] == RemoveAt(rows[i], path[i]) && vals[i] == rows[i][path[i]]
      invariant forall i :: h <= i < |rows| ==> cut[i] == rows[i]
    {
      vals := vals + [cut[h][path[h]]];
      cut := cut[h := RemoveAt(cut[h], path[h])];
    }
  }

  /** The per-row loop of add: reinserts vals[h] at path[h] in each row h < |path|. */
  method SpliceRows(rows: seq<seq<int>>, path: seq<int>, vals: seq<int>) returns (spliced: seq<seq<int>>)
    requires FitsSplice(rows, path, vals)
    ensures spliced == SpliceSeam(rows, path, vals)
  {
    spliced := rows;
    for i := 0 to |path|
      invariant |spliced| == |rows|
      invariant forall k :: 0 <= k < i ==> spliced[k] == InsertAt(rows[k], path[k], vals[k])
      invariant forall k :: i <= k < |rows| ==> spliced[k] == rows[k]
    {
      spliced := spliced[i := InsertAt(spliced[i], path[i], vals[i])];
    }
  }

  // ---------------------------------------------------------------------
  // The undo stacks
  // ---------------------------------------------------------------------

  /** `paths`/`vals` can be replayed onto `rows` (whose first `height` rows
      have `width` cells): the k-th seam (0 = bottom of the stack) was cut
      from rows of width `width + |paths| - k`. */
  ghost predicate Stackable(rows: seq<seq<int>>, height: int, width: int, paths: seq<seq<int>>, vals: seq<seq<int>>)
  {
    && 0 <= height <= |rows| && width >= 0
    && (forall h {:trigger |rows[h]|} :: 0 <= h < height ==> |rows[h]| == width)
    && |paths| == |vals|
    && (forall k :: 0 <= k < |paths| ==> IsSeam(paths[k], height, width + |paths| - k) && |vals[k]| == height)
  }

  /** The entry on top of the stacks fits the rows, and the entries below it
      can be replayed once it has been spliced back. */
  lemma StackablePop(rows: seq<seq<int>>, height: int, width: int, paths: seq<seq<int>>, vals: seq<seq<int>>)
    requires Stackable(rows, height, width, paths, vals) && |paths| > 0
    ensures FitsSplice(rows, paths[|paths| - 1], vals[|paths| - 1])
    ensures Stackable(SpliceSeam(rows, paths[|paths| - 1], vals[|paths| - 1]), height, width + 1,
                      paths[..|paths| - 1], vals[..|paths| - 1])
  {
    var n := |paths| - 1;
    assert IsSeam(paths[n], height, width + 1);
  }

  /** The top entries of the stacks alone can be replayed onto the same rows. */
  lemma StackableSuffix(rows: seq<seq<int>>, height: int, width: int, paths: seq<seq<int>>, vals: seq<seq<int>>, j: int)
    requires Stackable(rows, height, width, paths, vals) && 0 <= j <= |paths|
    ensures Stackable(rows, height, width, paths[j..], vals[j..])
  {
    forall k | 0 <= k < |paths| - j
      ensures IsSeam(paths[j..][k], height, width + |paths| - j - k) && |vals[j..][k]| == height
    {
      assert paths[j..][k] == paths[j + k] && vals[j..][k] == vals[j + k];
    }
  }

  /** What popping every entry of the stacks does to `rows`: the top of the
      stack (the last entry) is spliced back first, the bottom entry last. */
  ghost function UndoSeams(rows: seq<seq<int>>, height: int, width: int, paths: seq<seq<int>>, vals: seq<seq<int>>): (r: seq<seq<int>>)
    requires Stackable(rows, height, width, paths, vals)
    ensures Stackable(r, height, width + |paths|, [], [])
    ensures |r| == |rows| && forall h {:trigger r[h]} :: height <= h < |rows| ==> r[h] == rows[h]
    decreases |paths|
  {
    if paths == [] then rows
    else
      var inner := UndoSeams(rows, height, width, paths[1..], vals[1..]);
      SpliceSeam(inner, paths[0], vals[0])
  }

  /** Pushing onto a stack changes nothing below index d and extends the
      part from d up by the new entry. */
  lemma PushAbove<T>(a: seq<T>, x: T, d: int)
    requires 0 <= d <= |a|
    ensures (a + [x])[..d] == a[..d] && (a + [x])[d..] == a[d..] + [x]
  {
  }

  /** Replaying the stacks `paths`/`vals` onto `rows` gives back `orig`. */
  ghost predicate Undoes(rows: seq<seq<int>>, height: int, width: int, paths: seq<seq<int>>, vals: seq<seq<int>>, orig: seq<seq<int>>)
  {
    Stackable(rows, height, width, paths, vals) && UndoSeams(rows, height, width, paths, vals) == orig
  }

  /** Replaying the stacks from entry k - 1 up is replaying them from entry k
      up and then splicing entry k - 1 back. */
  lemma UndoSeamsStep(rows: seq<seq<int>>, height: int, width: int, paths: seq<seq<int>>, vals: seq<seq<int>>, k: int)
    requires Stackable(rows, height, width, paths, vals) && 1 <= k <= |paths|
    ensures Stackable(rows, height, width, paths[k..], vals[k..])
    ensures Stackable(rows, height, width, paths[k - 1..], vals[k - 1..])
    ensures FitsSplice(UndoSeams(rows, height, width, paths[k..], vals[k..]), paths[k - 1], vals[k - 1])
    ensures UndoSeams(rows, height, width, paths[k - 1..], vals[k - 1..])
         == SpliceSeam(UndoSeams(rows, height, width, paths[k..], vals[k..]), paths[k - 1], vals[k - 1])
  {
    StackableSuffix(rows, height, width, paths, vals, k);
    StackableSuffix(rows, height, width, paths, vals, k - 1);
    assert paths[k - 1..][1..] == paths[k..] && vals[k - 1..][1..] == vals[k..];
    assert IsSeam(paths[k - 1], height, width + |paths| - (k - 1));
  }

  /** Popping entry k - 1 off stacks whose entries from k up rebuild `cur`
      from `rows`, and splicing it into `cur`, gives what the entries from
      k - 1 up rebuild. */
  lemma UndoesPop(rows: seq<seq<int>>, height: int, width: int, paths: seq<seq<int>>, vals: seq<seq<int>>,
                  cur: seq<seq<int>>, k: int)
    requires Stackable(rows, height, width, paths, vals) && 1 <= k <= |paths|
    requires Undoes(rows, height, width, paths[k..], vals[k..], cur)
    ensures FitsSplice(cur, paths[k - 1], vals[k - 1])
    ensures Undoes(rows, height, width, paths[k - 1..], vals[k - 1..], SpliceSeam(cur, paths[k - 1], vals[k - 1]))
  {
    UndoSeamsStep(rows, height, width, paths, vals, k);
  }

  /** Dropping the top of a prefix of a stack leaves a shorter prefix. */
  lemma PopBelow<T>(a: seq<T>, k: int)
    requires 1 <= k <= |a|
    ensures a[..k][..k - 1] == a[..k - 1] && a[..k][k - 1] == a[k - 1]
  {
  }

  /** After a cut, the stacks with the seam pushed fit the cut rows. */
  lemma StackablePush(rows: seq<seq<int>>, height: int, width: int, paths: seq<seq<int>>, vals: seq<seq<int>>, p: seq<int>)
    requires Stackable(rows, height, width, paths, vals) && width >= 1 && IsSeam(p, height, width)
    ensures FitsCut(rows, p)
    ensures Stackable(CutSeam(rows, p), height, width - 1, paths + [p], vals + [SeamValues(rows, p)])
  {
    forall k | 0 <= k < |paths| + 1
      ensures IsSeam((paths + [p])[k], height, width - 1 + |paths| + 1 - k)
    {
      if k < |paths| {
        assert (paths + [p])[k] == paths[k];
      }
    }
  }

  /** After a cut, pushing the seam keeps the stacks replayable onto the cut
      rows, and replaying them gives back what replaying the old stacks onto
      the uncut rows gave: a remove is undone by the add that pops it. */
  lemma {:induction false} UndoSeamsPush(rows: seq<seq<int>>, height: int, width: int, paths: seq<seq<int>>, vals: seq<seq<int>>, p: seq<int>)
    requires Stackable(rows, height, width, paths, vals) && width >= 1 && IsSeam(p, height, width)
    ensures FitsCut(rows, p)
    ensures Stackable(CutSeam(rows, p), height, width - 1, paths + [p], vals + [SeamValues(rows, p)])
    ensures UndoSeams(CutSeam(rows, p), height, width - 1, paths + [p], vals + [SeamValues(rows, p)])
         == UndoSeams(rows, height, width, paths, vals)
    decreases |paths|
  {
    var v := SeamValues(rows, p);
    var cut := CutSeam(rows, p);
    StackablePush(rows, height, width, paths, vals, p);
    if paths == [] {
      CutThenSplice(rows, p);
      assert UndoSeams(cut, height, width - 1, [p], [v]) == SpliceSeam(cut, p, v);
    } else {
      assert (paths + [p])[1..] == paths[1..] + [p] && (vals + [v])[1..] == vals[1..] + [v];
      UndoSeamsPush(rows, height, width, paths[1..], vals[1..], p);
    }
  }

  /** Pushing a seam onto stacks that undo a batch of removes, while cutting
      it out of the rows, gives stacks that undo the longer batch. */
  lemma UndoesPush(rows: seq<seq<int>>, height: int, width: int, paths: seq<seq<int>>, vals: seq<seq<int>>,
                   orig: seq<seq<int>>, p: seq<int>)
    requires Undoes(rows, height, width, paths, vals, orig) && width >= 1 && IsSeam(p, height, width)
    ensures FitsCut(rows, p)
    ensures Undoes(CutSeam(rows, p), height, width - 1, paths + [p], vals + [SeamValues(rows, p)], orig)
  {
    UndoSeamsPush(rows, height, width, paths, vals, p);
  }

  /** UndoesPush, with the rows, width and stacks after the push named. */
  lemma UndoesPushAs(rows: seq<seq<int>>, height: int, width: int, paths: seq<seq<int>>, vals: seq<seq<int>>,
                     orig: seq<seq<int>>, p: seq<int>, rows': seq<seq<int>>, width': int, paths': seq<seq<int>>,
                     vals': seq<seq<int>>)
    requires Undoes(rows, height, width, paths, vals, orig) && width >= 1 && IsSeam(p, height, width)
    requires FitsCut(rows, p) && rows' == CutSeam(rows, p) && width' == width - 1
    requires paths' == paths + [p] && vals' == vals + [SeamValues(rows, p)]
    ensures Undoes(rows', height, width', paths', vals', orig)
  {
    UndoesPush(rows, height, width, paths, vals, orig, p);
  }

  // ---------------------------------------------------------------------
  // The snapshot buffer
  // ---------------------------------------------------------------------

  /** The constructors' copy of the source pixels: one list per row. */
  method RowsOf(a: array2<int>) returns (rows: seq<seq<int>>)
    ensures rows == Grid(a)
  {
    rows := [];
    for h := 0 to a.Length0
      invariant |rows| == h && forall i :: 0 <= i < h ==> rows[i] == RowOf(a, i)
    {
      var row := [];
      for w := 0 to a.Length1
        invariant row == RowOf(a, h)[..w]
      {
        row := row + [a[h, w]];
      }
      rows := rows + [row];
    }
  }

  /** The first `width` cells of every row, laid out row after row. */
  function Flatten(rows: seq<seq<int>>, width: nat): (d: seq<int>)
    requires forall h :: 0 <= h < |rows| ==> |rows[h]| >= width
    ensures |d| == |rows| * width
  {
    if rows == [] then []
    else Flatten(rows[..|rows| - 1], width) + rows[|rows| - 1][..width]
  }

  /** Writing row h right after the first h flattened rows flattens h + 1 rows. */
  lemma FlattenStep(rows: seq<seq<int>>, width: nat, h: int, d: seq<int>, base: int)
    requires forall i :: 0 <= i < |rows| ==> |rows[i]| >= width
    requires 0 <= h < |rows| && 0 <= base && base + width <= |d|
    requires d[..base] == Flatten(rows[..h], width) && d[base..base + width] == rows[h][..width]
    ensures d[..base + width] == Flatten(rows[..h + 1], width)
  {
    assert rows[..h + 1][..h] == rows[..h];
    assert d[..base + width] == d[..base] + d[base..base + width];
  }

  /** Two buffers that agree from `from` on agree from any later index on. */
  lemma SuffixKept(d: seq<int>, e: seq<int>, from: int, k: int)
    requires 0 <= from <= k <= |d| && |d| == |e| && d[from..] == e[from..]
    ensures d[k..] == e[k..]
  {
    assert d[k..] == d[from..][k - from..];
  }

  /** Row h of a height x width image fits in a buffer of height * stride
      cells when width <= stride. */
  lemma RowFits(h: int, height: int, width: int, stride: int)
    requires 0 <= h < height && 0 <= width <= stride
    ensures 0 <= h * width && h * width + width <= height * width <= height * stride
  {
    MulNonneg(h, width);
    MulNonneg(height - h - 1, width);
    MulNonneg(height, stride - width);
    assert (height - h - 1) * width == height * width - h * width - width;
    assert height * (stride - width) == height * stride - height * width;
  }

  lemma MulNonneg(a: int, b: int)
    requires 0 <= a && 0 <= b
    ensures 0 <= a * b
  {
  }

  /** Cell (h, w) sits at index h * width + w of the flattened buffer. */
  lemma {:induction false} FlattenCell(rows: seq<seq<int>>, width: nat, h: int, w: int)
    requires forall i :: 0 <= i < |rows| ==> |rows[i]| >= width
    requires 0 <= h < |rows| && 0 <= w < width
    ensures 0 <= h * width + w < |rows| * width
    ensures Flatten(rows, width)[h * width + w] == rows[h][w]
    decreases |rows|
  {
    var n := |rows| - 1;
    assert (n + 1) * width == n * width + width;
    if h < n {
      FlattenCell(rows[..n], width, h, w);
      assert h * width + w < n * width;
    } else {
      assert h * width == n * width;
    }
  }

  /** A row with the three cells around column `p` painted `color` (cells
      outside the row are skipped). */
  function HighlightRow(row: seq<int>, p: int, color: int): (r: seq<int>)
    ensures |r| == |row|
    ensures forall i :: 0 <= i < |row| && p - 1 <= i <= p + 1 ==> r[i] == color
    ensures forall i :: 0 <= i < |row| && (i < p - 1 || p + 1 < i) ==> r[i] == row[i]
  {
    seq(|row|, i requires 0 <= i < |row| => if p - 1 <= i <= p + 1 then color else row[i])
  }

  /** Every row with its seam cell and both neighbours painted `color`. */
  function Highlighted(rows: seq<seq<int>>, path: seq<int>, color: int): (r: seq<seq<int>>)
    requires |path| >= |rows|
    ensures |r| == |rows|
    ensures forall h {:trigger r[h]} :: 0 <= h < |rows| ==> r[h] == HighlightRow(rows[h], path[h], color)
  {
    seq(|rows|, h requires 0 <= h < |rows| => HighlightRow(rows[h], path[h], color))
  }
}
