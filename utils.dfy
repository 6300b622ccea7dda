/** Integer grid helpers of the seam carver: minima, Java's modulus, argmin,
    grayscale conversion, edge padding, the Sobel gradient, transpose and mirror.
    A Java `int[][]` is modelled as a rectangular `array2<int>`; the parallel
    stripes of the source run here as one sequential loop over all rows. */
module Utils {

  /** Minimum of three values, compared in the source's order. */
  function Min3(a: int, b: int, c: int): (r: int)
    ensures r <= a && r <= b && r <= c
    ensures r == a || r == b || r == c
  {
    if a < b then (if a < c then a else c) else (if b < c then b else c)
  }

  function Min(a: int, b: int): (r: int)
    ensures r <= a && r <= b
    ensures r == a || r == b
  {
    if a < b then a else b
  }

  function Max(a: int, b: int): (r: int)
    ensures r >= a && r >= b
    ensures r == a || r == b
  {
    if a > b then a else b
  }

  /** Math.abs (32-bit overflow of abs(MIN_VALUE) is not modelled). */
  function Abs(x: int): (r: int)
    ensures r >= 0 && (r == x || r == -x)
  {
    if x < 0 then -x else x
  }

  /** Java's `a % m`: the remainder of division truncated toward zero,
      so it takes the sign of the dividend and differs from `a` by a
      multiple of `m` (`a == (a / m) * m + a % m` in Java). */
  function JavaRem(a: int, m: int): (r: int)
    requires m != 0
    ensures Abs(r) < Abs(m)
    ensures a >= 0 ==> r >= 0
    ensures a <= 0 ==> r <= 0
    ensures (a - r) % Abs(m) == 0
  {
    var n := Abs(m);
    if a >= 0 then
      assert a - a % n == (a / n) * n;
      MulMod(a / n, n);
      a % n
    else
      assert a + (-a) % n == (-((-a) / n)) * n;
      MulMod(-((-a) / n), n);
      -((-a) % n)
  }

  /** A multiple of n leaves no remainder. */
  lemma MulMod(q: int, n: int)
    requires n > 0
    ensures (q * n) % n == 0
  {
    UniqueQuotient(q * n, n, (q * n) / n, (q * n) % n, q, 0);
  }

  /** Utils.mod: `(a % m + m) % m` with Java's remainder.  For a positive
      modulus it is the mathematical residue of `a`, in [0, m). */
  function Mod(a: int, m: int): (r: int)
    requires m != 0
    ensures m > 0 ==> 0 <= r < m && r == a % m
    ensures m < 0 ==> m < r <= 0 && (a - r) % (-m) == 0
  {
    var r1 := JavaRem(a, m);
    if m > 0 then
      ModIsResidue(a, m);
      JavaRem(r1 + m, m)
    else
      NegModCongruent(a, m, r1, JavaRem(r1 + m, m));
      JavaRem(r1 + m, m)
  }

  /** For a negative modulus, `(a % m + m) % m` still differs from `a` by a
      multiple of m: r1 stands for `a % m` and r for the outer remainder. */
  lemma NegModCongruent(a: int, m: int, r1: int, r: int)
    requires m < 0 && (a - r1) % (-m) == 0 && (r1 + m - r) % (-m) == 0
    ensures (a - r) % (-m) == 0
  {
    var n := -m;
    SumMod(a - r1, r1 + m - r, n);
    SumMod(a + m - r, n, n);
  }

  /** The sum of two multiples of n is a multiple of n. */
  lemma SumMod(x: int, y: int, n: int)
    requires n > 0 && x % n == 0 && y % n == 0
    ensures (x + y) % n == 0
  {
    assert x + y == (x / n + y / n) * n;
    MulMod(x / n + y / n, n);
  }

  lemma ModIsResidue(a: int, m: int)
    requires m > 0
    ensures JavaRem(JavaRem(a, m) + m, m) == a % m
  {
    if a >= 0 {
      var t := a % m;
      ShiftedResidue(t, m);
    } else {
      var t := (-a) % m;
      NegatedResidue(a, m);
      if t == 0 {
        assert JavaRem(a, m) + m == m;
      } else {
        assert JavaRem(a, m) + m == m - t;
      }
    }
  }

  /** For 0 <= t < m: (t + m) % m == t. */
  lemma ShiftedResidue(t: int, m: int)
    requires m > 0 && 0 <= t < m
    ensures (t + m) % m == t && t % m == t
  {
    var q := (t + m) / m;
    var s := (t + m) % m;
    assert t + m == q * m + s;
    UniqueQuotient(t + m, m, q, s, 1, t);
    UniqueQuotient(t, m, t / m, t % m, 0, t);
  }

  /** The Euclidean residue of a negative number in terms of the residue of its negation. */
  lemma NegatedResidue(a: int, m: int)
    requires m > 0 && a < 0
    ensures var t := (-a) % m; (t == 0 ==> a % m == 0 && m % m == 0) && (t != 0 ==> a % m == m - t && (m - t) % m == m - t)
  {
    var t := (-a) % m;
    var q := (-a) / m;
    assert -a == q * m + t;
    UniqueQuotient(m, m, m / m, m % m, 1, 0);
    if t == 0 {
      assert a == (-q) * m + 0;
      UniqueQuotient(a, m, a / m, a % m, -q, 0);
    } else {
      assert a == (-q - 1) * m + (m - t);
      UniqueQuotient(a, m, a / m, a % m, -q - 1, m - t);
      UniqueQuotient(m - t, m, (m - t) / m, (m - t) % m, 0, m - t);
    }
  }

  /** Euclidean division by a positive divisor has one quotient and one remainder. */
  lemma UniqueQuotient(x: int, m: int, q1: int, r1: int, q2: int, r2: int)
    requires m > 0
    requires x == q1 * m + r1 && 0 <= r1 < m
    requires x == q2 * m + r2 && 0 <= r2 < m
    ensures q1 == q2 && r1 == r2
  {
    assert (q1 - q2) * m == r2 - r1;
    if q1 > q2 {
      MulAtLeast(q1 - q2, m);
    } else if q1 < q2 {
      MulAtLeast(q2 - q1, m);
    }
  }

  lemma MulAtLeast(d: int, m: int)
    requires d >= 1 && m > 0
    ensures d * m >= m
  {
    assert d * m == (d - 1) * m + m;
  }

  /** The first index of a minimum of data[0..size), as Utils.argmin defines it:
      0 when size <= 1, and a strict `<` so later equal values never win. */
  ghost predicate IsFirstMin(data: seq<int>, size: int, i: int)
    requires 1 <= |data| && size <= |data|
  {
    (if size <= 1 then i == 0 else 0 <= i < size) &&
    (forall j :: 0 <= j < size ==> data[i] <= data[j]) &&
    (forall j :: 0 <= j < i ==> data[i] < data[j])
  }

  /** Functional counterpart of Argmin, scanning data[0..size) left to right. */
  function FirstMinIndex(data: seq<int>, size: int): (r: int)
    requires 1 <= |data| && size <= |data|
    ensures IsFirstMin(data, size, r)
    decreases size
  {
    if size <= 1 then 0
    else
      var k := FirstMinIndex(data, size - 1);
      if data[size - 1] < data[k] then size - 1 else k
  }

  /** Only one index is the first minimum. */
  lemma FirstMinUnique(data: seq<int>, size: int, i: int, j: int)
    requires 1 <= |data| && size <= |data|
    requires IsFirstMin(data, size, i) && IsFirstMin(data, size, j)
    ensures i == j
  {
    if size > 1 {
      assert data[i] <= data[j] && data[j] <= data[i];
    }
  }

  /** Utils.argmin(data, size): the row is passed as a read-only sequence. */
  method Argmin(data: seq<int>, size: int) returns (index: int)
    requires 1 <= |data| && size <= |data|
    ensures IsFirstMin(data, size, index)
  {
    index := 0;
    var min := data[0];
    var i := 1;
    while i < size
      invariant 1 <= i <= |data| && (size >= 1 ==> i <= size) && (size <= 1 ==> i == 1)
      invariant 0 <= index < i && min == data[index]
      invariant forall j :: 0 <= j < i ==> min <= data[j]
      invariant forall j :: 0 <= j < index ==> min < data[j]
    {
      if data[i] < min {
        min := data[i];
        index := i;
      }
      i := i + 1;
    }
  }

  /** The 8-bit channels of a packed RGB pixel: `(pixel >> s) & 0xFF`.  An
      arithmetic shift is floor division and the mask a non-negative residue. */
  function Red(pixel: int): (c: int)
    ensures 0 <= c < 256
  {
    (pixel / 0x1_0000) % 0x100
  }

  function Green(pixel: int): (c: int)
    ensures 0 <= c < 256
  {
    (pixel / 0x100) % 0x100
  }

  function Blue(pixel: int): (c: int)
    ensures 0 <= c < 256
  {
    pixel % 0x100
  }

  /** Weighted luminance of one pixel, always a valid 8-bit gray level. */
  function Gray(pixel: int): (g: int)
    ensures 0 <= g <= 255
  {
    (3 * Red(pixel) + 4 * Green(pixel) + Blue(pixel)) / 8
  }

  /** Utils.grayscale: a fresh grid of the same shape holding Gray of every pixel. */
  method Grayscale(image: array2<int>) returns (gray: array2<int>)
    requires image.Length0 >= 1
    ensures fresh(gray)
    ensures gray.Length0 == image.Length0 && gray.Length1 == image.Length1
    ensures forall h, w :: 0 <= h < gray.Length0 && 0 <= w < gray.Length1 ==>
              gray[h, w] == Gray(image[h, w]) && 0 <= gray[h, w] <= 255
  {
    var height, width := image.Length0, image.Length1;
    gray := new int[height, width];
    var h := 0;
    while h < height
      invariant 0 <= h <= height
      invariant forall i, j :: 0 <= i < h && 0 <= j < width ==> gray[i, j] == Gray(image[i, j])
    {
      var w := 0;
      while w < width
        invariant 0 <= w <= width
        invariant forall i, j :: 0 <= i < h && 0 <= j < width ==> gray[i, j] == Gray(image[i, j])
        invariant forall j :: 0 <= j < w ==> gray[h, j] == Gray(image[h, j])
      {
        var pixel := image[h, w];
        gray[h, w] := Gray(pixel);
        w := w + 1;
      }
      h := h + 1;
    }
  }

  /** The nearest index of [0, n) to x. */
  function Clamp(x: int, n: int): (r: int)
    requires n >= 1
    ensures 0 <= r < n
    ensures 0 <= x < n ==> r == x
    ensures x < 0 ==> r == 0
    ensures x >= n ==> r == n - 1
  {
    if x < 0 then 0 else if x >= n then n - 1 else x
  }

  /** Fills row r of `result` from row `src` of `image`: `pad` copies of its
      first pixel, the row itself, then `pad` copies of its last pixel. */
  method PadRow(image: array2<int>, pad: int, result: array2<int>, r: int, src: int)
    requires pad >= 0 && image.Length1 >= 1 && 0 <= src < image.Length0
    requires result != image
    requires result.Length1 == image.Length1 + 2 * pad && 0 <= r < result.Length0
    modifies result
    ensures forall c :: 0 <= c < result.Length1 ==> result[r, c] == image[src, Clamp(c - pad, image.Length1)]
    ensures forall i, c :: 0 <= i < result.Length0 && i != r && 0 <= c < result.Length1 ==> result[i, c] == old(result[i, c])
  {
    var width := image.Length1;
    var w := 0;
    while w < pad
      invariant 0 <= w <= pad
      invariant forall c :: 0 <= c < w ==> result[r, c] == image[src, Clamp(c - pad, width)]
      invariant forall i, c :: 0 <= i < result.Length0 && i != r && 0 <= c < result.Length1 ==> result[i, c] == old(result[i, c])
    {
      result[r, w] := image[src, 0];
      w := w + 1;
    }
    while w < width + pad
      invariant pad <= w <= width + pad
      invariant forall c :: 0 <= c < w ==> result[r, c] == image[src, Clamp(c - pad, width)]
      invariant forall i, c :: 0 <= i < result.Length0 && i != r && 0 <= c < result.Length1 ==> result[i, c] == old(result[i, c])
    {
      result[r, w] := image[src, w - pad];
      w := w + 1;
    }
    while w < width + 2 * pad
      invariant width + pad <= w <= width + 2 * pad
      invariant forall c :: 0 <= c < w ==> result[r, c] == image[src, Clamp(c - pad, width)]
      invariant forall i, c :: 0 <= i < result.Length0 && i != r && 0 <= c < result.Length1 ==> result[i, c] == old(result[i, c])
    {
      result[r, w] := image[src, width - 1];
      w := w + 1;
    }
  }

  /** Utils.pad: edge-replicate padding by `pad` cells on every side.  Every
      cell of the result copies the nearest pixel of the image, so the
      interior is the image and the borders repeat its edges and corners. */
  method Pad(image: array2<int>, pad: int) returns (result: array2<int>)
    requires image.Length0 >= 1 && pad >= 0 && (pad > 0 ==> image.Length1 >= 1)
    ensures fresh(result)
    ensures result.Length0 == image.Length0 + 2 * pad && result.Length1 == image.Length1 + 2 * pad
    ensures forall r, c :: 0 <= r < result.Length0 && 0 <= c < result.Length1 ==>
              result[r, c] == image[Clamp(r - pad, image.Length0), Clamp(c - pad, image.Length1)]
  {
    var height, width := image.Length0, image.Length1;
    result := new int[height + 2 * pad, width + 2 * pad];
    if width == 0 {
      return;
    }
    // Rows holding the image itself.
    var h := pad;
    while h < height + pad
      invariant pad <= h <= height + pad
      invariant forall r, c :: pad <= r < h && 0 <= c < result.Length1 ==>
                  result[r, c] == image[Clamp(r - pad, height), Clamp(c - pad, width)]
    {
      PadRow(image, pad, result, h, h - pad);
      h := h + 1;
    }
    // Rows above the image repeat its first row.
    h := 0;
    while h < pad
      invariant 0 <= h <= pad
      invariant forall r, c :: (0 <= r < h || pad <= r < height + pad) && 0 <= c < result.Length1 ==>
                  result[r, c] == image[Clamp(r - pad, height), Clamp(c - pad, width)]
    {
      PadRow(image, pad, result, h, 0);
      h := h + 1;
    }
    // Rows below the image repeat its last row.
    h := height + pad;
    while h < height + 2 * pad
      invariant height + pad <= h <= height + 2 * pad
      invariant forall r, c :: 0 <= r < h && 0 <= c < result.Length1 ==>
                  result[r, c] == image[Clamp(r - pad, height), Clamp(c - pad, width)]
    {
      PadRow(image, pad, result, h, height - 1);
      h := h + 1;
    }
  }

  /** Gray level of cell (i, j) of the image padded by one cell on each side. */
  ghost function PaddedGray(image: array2<int>, i: int, j: int): (g: int)
    requires image.Length0 >= 1 && image.Length1 >= 1
    reads image
    ensures 0 <= g <= 255
  {
    Gray(image[Clamp(i - 1, image.Length0), Clamp(j - 1, image.Length1)])
  }

  /** The grayscale image padded by one replicated cell on each side, as
      Utils.sobel builds it with `pad(grayscale(image), 1)`. */
  ghost function PaddedGrayGrid(image: array2<int>): (g: seq<seq<int>>)
    requires image.Length0 >= 1 && image.Length1 >= 1
    reads image
    ensures |g| == image.Length0 + 2
    ensures forall i :: 0 <= i < |g| ==> |g[i]| == image.Length1 + 2
  {
    seq(image.Length0 + 2, i requires 0 <= i < image.Length0 + 2 reads image =>
      seq(image.Length1 + 2, j requires 0 <= j < image.Length1 + 2 reads image => PaddedGray(image, i, j)))
  }

  /** Cell (h, w) has its eight neighbours inside the grid g. */
  ghost predicate Inner(g: seq<seq<int>>, h: int, w: int)
  {
    1 <= h < |g| - 1 && 1 <= w && w + 1 < |g[h - 1]| && w + 1 < |g[h]| && w + 1 < |g[h + 1]|
  }

  /** The horizontal Sobel term as the source writes it, including the
      bottom-row pair `g[h+1][w-1] - g[h+1][w-1]`: zero as soon as columns
      w - 1 and w + 1 agree on the two upper rows, whatever the bottom row
      holds. */
  function SobelX(g: seq<seq<int>>, h: int, w: int): (r: int)
    requires Inner(g, h, w)
    ensures g[h - 1][w - 1] == g[h - 1][w + 1] && g[h][w - 1] == g[h][w + 1] ==> r == 0
  {
    g[h - 1][w - 1] - g[h - 1][w + 1] + 2 * g[h][w - 1] - 2 * g[h][w + 1] + g[h + 1][w - 1] - g[h + 1][w - 1]
  }

  /** The vertical Sobel term: zero when the rows above and below agree
      around column w. */
  function SobelY(g: seq<seq<int>>, h: int, w: int): (r: int)
    requires Inner(g, h, w)
    ensures g[h - 1][w - 1] == g[h + 1][w - 1] && g[h - 1][w] == g[h + 1][w] && g[h - 1][w + 1] == g[h + 1][w + 1] ==> r == 0
  {
    g[h - 1][w - 1] + 2 * g[h - 1][w] + g[h - 1][w + 1] - g[h + 1][w - 1] - 2 * g[h + 1][w] - g[h + 1][w + 1]
  }

  /** Gradient magnitude at cell (h, w) of the padded grid. */
  function SobelAt(g: seq<seq<int>>, h: int, w: int): (e: int)
    requires Inner(g, h, w)
    ensures e >= 0
  {
    Abs(SobelX(g, h, w)) + Abs(SobelY(g, h, w))
  }

  /** The bottom-row terms of SobelX cancel: the horizontal kernel reads
      rows h-1 and h only, whatever row h+1 holds. */
  lemma SobelXIgnoresBottomRow(g: seq<seq<int>>, h: int, w: int, bottom: seq<int>)
    requires Inner(g, h, w) && |bottom| == |g[h + 1]|
    ensures SobelX(g, h, w) == SobelX(g[h + 1 := bottom], h, w)
    ensures SobelX(g, h, w) == g[h - 1][w - 1] - g[h - 1][w + 1] + 2 * (g[h][w - 1] - g[h][w + 1])
  {
  }

  /** On 8-bit gray levels every gradient lies in [0, 1785], so the Java
      `int` arithmetic of the kernel never overflows. */
  lemma SobelBounded(g: seq<seq<int>>, h: int, w: int)
    requires Inner(g, h, w)
    requires forall i, j :: h - 1 <= i <= h + 1 && w - 1 <= j <= w + 1 ==> 0 <= g[i][j] <= 255
    ensures 0 <= SobelAt(g, h, w) <= 1785
  {
    assert -765 <= SobelX(g, h, w) <= 765;
    assert -1020 <= SobelY(g, h, w) <= 1020;
  }

  /** The gradients of the inner cells of padded row h, left to right. */
  ghost function SobelRowOf(g: seq<seq<int>>, h: int): (r: seq<int>)
    requires 1 <= h < |g| - 1 && 2 <= |g[h]| && |g[h - 1]| == |g[h]| == |g[h + 1]|
    ensures |r| == |g[h]| - 2
  {
    seq(|g[h]| - 2, j requires 0 <= j < |g[h]| - 2 => SobelAt(g, h, j + 1))
  }

  /** Utils.sobel: one list per padded row, so height + 2 lists.  The first
      `height` lists hold the gradient of every pixel; the last two stay empty. */
  method Sobel(image: array2<int>) returns (result: seq<seq<int>>)
    requires image.Length0 >= 1 && image.Length1 >= 1
    ensures |result| == image.Length0 + 2
    ensures result[image.Length0] == [] && result[image.Length0 + 1] == []
    ensures forall h :: 0 <= h < image.Length0 ==> |result[h]| == image.Length1
    ensures forall h, w :: 0 <= h < image.Length0 && 0 <= w < image.Length1 ==>
              result[h][w] == SobelAt(PaddedGrayGrid(image), h + 1, w + 1)
  {
    var g := Grayscale(image);
    var gray := Pad(g, 1);
    ghost var pg := PaddedGrayGrid(image);
    assert forall i, j :: 0 <= i < gray.Length0 && 0 <= j < gray.Length1 ==> gray[i, j] == pg[i][j];
    result := SobelRows(gray, pg);
    SobelRowsCells(pg, result);
  }

  /** The row loop of Utils.sobel: list h - 1 receives the gradients of padded row h. */
  method SobelRows(gray: array2<int>, ghost pg: seq<seq<int>>) returns (result: seq<seq<int>>)
    requires gray.Length0 >= 3 && gray.Length1 >= 2 && |pg| == gray.Length0
    requires forall i :: 0 <= i < |pg| ==> |pg[i]| == gray.Length1
    requires forall i, j :: 0 <= i < gray.Length0 && 0 <= j < gray.Length1 ==> gray[i, j] == pg[i][j]
    ensures |result| == |pg|
    ensures result[|pg| - 2] == [] && result[|pg| - 1] == []
    ensures forall k :: 0 <= k < |pg| - 2 ==> result[k] == SobelRowOf(pg, k + 1)
  {
    var height := gray.Length0;
    result := seq(height, _ => []);
    var h := 1;
    while h < height - 1
      invariant 1 <= h <= height - 1
      invariant |result| == height
      invariant forall k :: h - 1 <= k < height ==> result[k] == []
      invariant forall k :: 0 <= k < h - 1 ==> result[k] == SobelRowOf(pg, k + 1)
    {
      var row := SobelRow(gray, pg, h);
      assert result[h - 1] + row == row;
      result := result[h - 1 := result[h - 1] + row];
      h := h + 1;
    }
  }

  /** Reads the cell-wise gradients back out of the per-row lists. */
  lemma SobelRowsCells(pg: seq<seq<int>>, result: seq<seq<int>>)
    requires |pg| >= 3 && |result| == |pg|
    requires forall i :: 0 <= i < |pg| ==> |pg[i]| == |pg[0]| >= 2
    requires forall k :: 0 <= k < |pg| - 2 ==> result[k] == SobelRowOf(pg, k + 1)
    ensures forall k :: 0 <= k < |pg| - 2 ==> |result[k]| == |pg[0]| - 2
    ensures forall k, j :: 0 <= k < |pg| - 2 && 0 <= j < |pg[0]| - 2 ==> result[k][j] == SobelAt(pg, k + 1, j + 1)
  {
    forall k, j | 0 <= k < |pg| - 2 && 0 <= j < |pg[0]| - 2
      ensures result[k][j] == SobelAt(pg, k + 1, j + 1)
    {
      assert result[k] == SobelRowOf(pg, k + 1);
    }
  }

  /** The gradients of padded row h, appended one by one as the source does. */
  method SobelRow(gray: array2<int>, ghost pg: seq<seq<int>>, h: int) returns (row: seq<int>)
    requires gray.Length1 >= 2 && |pg| == gray.Length0
    requires forall i :: 0 <= i < |pg| ==> |pg[i]| == gray.Length1
    requires forall i, j :: 0 <= i < gray.Length0 && 0 <= j < gray.Length1 ==> gray[i, j] == pg[i][j]
    requires 1 <= h < gray.Length0 - 1
    ensures row == SobelRowOf(pg, h)
  {
    var width := gray.Length1;
    row := [];
    var w := 1;
    while w < width - 1
      invariant 1 <= w <= width - 1
      invariant |row| == w - 1
      invariant forall j :: 0 <= j < |row| ==> row[j] == SobelAt(pg, h, j + 1)
    {
      var sx := gray[h - 1, w - 1] -
                gray[h - 1, w + 1] +
                2 * gray[h, w - 1] -
                2 * gray[h, w + 1] +
                gray[h + 1, w - 1] -
                gray[h + 1, w - 1];
      var sy := gray[h - 1, w - 1] +
                2 * gray[h - 1, w] +
                gray[h - 1, w + 1] -
                gray[h + 1, w - 1] -
                2 * gray[h + 1, w] -
                gray[h + 1, w + 1];
      row := row + [Abs(sx) + Abs(sy)];
      w := w + 1;
    }
  }

  /** Side of the square blocks Utils.transpose visits. */
  const BlockSize: int := 8

  /** Utils.transpose: result[j][i] == image[i][j].  The source walks 8x8
      blocks, but its row loop tests `i < i + blockSize`, which always holds,
      so each block row runs on to the last image row and stops only at the
      `i >= height` break; the writes repeat but every one of them is right. */
  method Transpose(image: array2<int>) returns (result: array2<int>)
    requires image.Length0 >= 1
    ensures fresh(result)
    ensures result.Length0 == image.Length1 && result.Length1 == image.Length0
    ensures forall i, j :: 0 <= i < image.Length0 && 0 <= j < image.Length1 ==> result[j, i] == image[i, j]
  {
    var height, width := image.Length0, image.Length1;
    result := new int[width, height];
    var h := 0;
    while h < height
      invariant 0 <= h
      invariant h > 0 ==> forall i, j :: 0 <= i < height && 0 <= j < width ==> result[j, i] == image[i, j]
    {
      var w := 0;
      while w < width
        invariant 0 <= w
        invariant h > 0 ==> forall i, j :: 0 <= i < height && 0 <= j < width ==> result[j, i] == image[i, j]
        invariant forall i, j :: h <= i < height && 0 <= j < w && j < width ==> result[j, i] == image[i, j]
      {
        var i := h;
        while i < height
          invariant h <= i <= height
          invariant h > 0 ==> forall i', j :: 0 <= i' < height && 0 <= j < width ==> result[j, i'] == image[i', j]
          invariant forall i', j :: h <= i' < height && 0 <= j < w && j < width ==> result[j, i'] == image[i', j]
          invariant forall i', j :: h <= i' < i && w <= j < w + BlockSize && j < width ==> result[j, i'] == image[i', j]
        {
          var j := w;
          while j < w + BlockSize && j < width
            invariant w <= j <= w + BlockSize
            invariant h > 0 ==> forall i', j' :: 0 <= i' < height && 0 <= j' < width ==> result[j', i'] == image[i', j']
            invariant forall i', j' :: h <= i' < height && 0 <= j' < w && j' < width ==> result[j', i'] == image[i', j']
            invariant forall i', j' :: h <= i' < i && w <= j' < w + BlockSize && j' < width ==> result[j', i'] == image[i', j']
            invariant forall j' :: w <= j' < j && j' < width ==> result[j', i] == image[i, j']
          {
            result[j, i] := image[i, j];
            j := j + 1;
          }
          i := i + 1;
        }
        w := w + BlockSize;
      }
      h := h + BlockSize;
    }
  }

  /** Every row read backwards. */
  ghost function Mirrored(g: seq<seq<int>>): (m: seq<seq<int>>)
    ensures |m| == |g|
    ensures forall h :: 0 <= h < |g| ==> |m[h]| == |g[h]|
  {
    seq(|g|, h requires 0 <= h < |g| => seq(|g[h]|, w requires 0 <= w < |g[h]| => g[h][|g[h]| - 1 - w]))
  }

  /** Mirroring twice gives back the grid. */
  lemma MirroredTwice(g: seq<seq<int>>)
    ensures Mirrored(Mirrored(g)) == g
  {
    var m := Mirrored(Mirrored(g));
    forall h | 0 <= h < |g|
      ensures m[h] == g[h]
    {
      assert |m[h]| == |g[h]|;
      forall w | 0 <= w < |g[h]|
        ensures m[h][w] == g[h][w]
      {
        assert Mirrored(g)[h][|g[h]| - 1 - w] == g[h][w];
      }
    }
  }

  /** Row h of a 2D array, as Java hands out `a[h]`. */
  function RowOf(a: array2<int>, h: int): (r: seq<int>)
    requires 0 <= h < a.Length0
    reads a
    ensures |r| == a.Length1
    ensures forall w :: 0 <= w < a.Length1 ==> r[w] == a[h, w]
  {
    seq(a.Length1, w requires 0 <= w < a.Length1 reads a => a[h, w])
  }

  /** The contents of a 2D array as a sequence of rows. */
  ghost function Grid(a: array2<int>): (g: seq<seq<int>>)
    reads a
    ensures |g| == a.Length0
    ensures forall h :: 0 <= h < a.Length0 ==> |g[h]| == a.Length1
    ensures forall h, w :: 0 <= h < a.Length0 && 0 <= w < a.Length1 ==> g[h][w] == a[h, w]
  {
    seq(a.Length0, h requires 0 <= h < a.Length0 reads a => RowOf(a, h))
  }

  /** Utils.mirror: reverses every row in place and hands back the same array. */
  method Mirror(image: array2<int>) returns (result: array2<int>)
    requires image.Length0 >= 1
    modifies image
    ensures result == image
    ensures Grid(image) == Mirrored(old(Grid(image)))
  {
    var height, width := image.Length0, image.Length1;
    var h := 0;
    while h < height
      invariant 0 <= h <= height
      invariant forall i, j :: 0 <= i < h && 0 <= j < width ==> image[i, j] == old(image[i, width - 1 - j])
      invariant forall i, j :: h <= i < height && 0 <= j < width ==> image[i, j] == old(image[i, j])
    {
      var w := 0;
      while w < width / 2
        invariant 0 <= w <= width / 2
        invariant forall i, j :: 0 <= i < h && 0 <= j < width ==> image[i, j] == old(image[i, width - 1 - j])
        invariant forall i, j :: h < i < height && 0 <= j < width ==> image[i, j] == old(image[i, j])
        invariant forall j :: (0 <= j < w || width - w <= j < width) ==> image[h, j] == old(image[h, width - 1 - j])
        invariant forall j :: w <= j < width - w ==> image[h, j] == old(image[h, j])
      {
        var temp := image[h, w];
        image[h, w] := image[h, width - 1 - w];
        image[h, width - 1 - w] := temp;
        w := w + 1;
      }
      h := h + 1;
    }
    result := image;
    ghost var g0 := old(Grid(image));
    assert forall i, j :: 0 <= i < height && 0 <= j < width ==> Grid(image)[i][j] == Mirrored(g0)[i][j];
    assert forall i :: 0 <= i < height ==> Grid(image)[i] == Mirrored(g0)[i];
  }
}
