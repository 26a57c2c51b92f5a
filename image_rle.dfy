/**
 * The image variant of run-length encoding, shared by the desktop interface
 * and the standalone script: the pixel matrix is flattened row by row, the
 * flat list becomes (colour, count) pairs, and decoding expands the pairs and
 * cuts the pixels back into rows of the image's width.
 */
module ImageRle {
  import opened Rle

  /** A colour channel, as `getpixel` on an RGB image gives it. */
  type Channel = x: int | 0 <= x < 256

  datatype Rgb = Rgb(r: Channel, g: Channel, b: Channel)

  // ---------------------------------------------------------------------------
  // Flattening and rows

  /** `aplanar_imagen`: the rows concatenated in order. */
  function Flatten<T>(rows: seq<seq<T>>): seq<T>
  {
    if rows == [] then [] else Flatten(rows[..|rows| - 1]) + rows[|rows| - 1]
  }

  /** Every row of `m` holds `width` elements. */
  predicate Rectangular<T>(m: seq<seq<T>>, width: nat)
  {
    forall i :: 0 <= i < |m| ==> |m[i]| == width
  }

  /** The flat list of a `width`-wide matrix has `|m| * width` elements. */
  lemma {:induction false} FlattenRectLength<T>(m: seq<seq<T>>, width: nat)
    requires Rectangular(m, width)
    ensures |Flatten(m)| == |m| * width
  {
    if m != [] {
      var n := |m| - 1;
      FlattenRectLength(m[..n], width);
      assert |Flatten(m)| == n * width + width;
      assert n * width + width == (n + 1) * width;
    }
  }

  /** Element `j` of row `i` sits at position `i * width + j` of the flat list. */
  lemma {:induction false} FlattenAt<T>(m: seq<seq<T>>, width: nat, i: nat, j: nat)
    requires Rectangular(m, width)
    requires i < |m| && j < width
    ensures i * width + j < |Flatten(m)|
    ensures Flatten(m)[i * width + j] == m[i][j]
  {
    var n := |m| - 1;
    var init := m[..n];
    FlattenRectLength(init, width);
    var k := i * width + j;
    if i < n {
      FlattenAt(init, width, i, j);
      assert k < |Flatten(init)|;
    } else {
      assert k == |Flatten(init)| + j;
    }
  }

  /** The flattening is row-major: every position of the matrix, at once. */
  lemma FlattenRowMajor<T>(m: seq<seq<T>>, width: nat)
    requires Rectangular(m, width)
    ensures forall i, j :: 0 <= i < |m| && 0 <= j < width ==>
      i * width + j < |Flatten(m)| && Flatten(m)[i * width + j] == m[i][j]
  {
    var f := Flatten(m);
    forall i, j | 0 <= i < |m| && 0 <= j < width
      ensures i * width + j < |f| && f[i * width + j] == m[i][j]
    {
      FlattenAt(m, width, i, j);
    }
    FlattenRectLength(m, width);
  }

  /** Row `i` of `n` rows of `w` elements lies within the flat list. */
  lemma Bounds(i: nat, n: nat, w: nat)
    requires i < n
    ensures 0 <= i * w <= (i + 1) * w <= n * w
    ensures (i + 1) * w == i * w + w
  {
    MulLeq(i + 1, n, w);
  }

  lemma MulLeq(a: nat, b: nat, c: nat)
    requires a <= b
    ensures a * c <= b * c
  {
  }

  /** The length of the flat list is the sum of the row lengths. */
  function RowLengths<T>(rows: seq<seq<T>>): nat
  {
    if rows == [] then 0 else RowLengths(rows[..|rows| - 1]) + |rows[|rows| - 1]|
  }

  lemma {:induction false} FlattenLength<T>(rows: seq<seq<T>>)
    ensures |Flatten(rows)| == RowLengths(rows)
  {
    if rows != [] {
      FlattenLength(rows[..|rows| - 1]);
    }
  }

  /** Python's `s[lo:hi]` for `0 <= lo <= hi`: both ends clamped to the length. */
  function Slice<T>(s: seq<T>, lo: nat, hi: nat): (r: seq<T>)
    requires lo <= hi
    ensures |r| == (if hi <= |s| then hi - lo else if lo <= |s| then |s| - lo else 0)
  {
    if hi <= |s| then s[lo..hi] else if lo <= |s| then s[lo..] else []
  }

  /** `[pixels[i * width:(i + 1) * width] for i in range(height)]` */
  function Rows<T>(pixels: seq<T>, width: nat, height: nat): (m: seq<seq<T>>)
    ensures |m| == height
  {
    seq(height, i requires 0 <= i < height => Slice(pixels, i * width, (i + 1) * width))
  }

  /** Cutting the flat list of a `width`-wide matrix into rows gives the matrix back. */
  lemma RowsOfFlatten<T>(m: seq<seq<T>>, width: nat)
    requires Rectangular(m, width)
    ensures Rows(Flatten(m), width, |m|) == m
  {
    var rows := Rows(Flatten(m), width, |m|);
    forall i | 0 <= i < |m| ensures rows[i] == m[i] {
      RowOfFlatten(m, width, i);
    }
  }

  lemma RowOfFlatten<T>(m: seq<seq<T>>, width: nat, i: nat)
    requires Rectangular(m, width) && i < |m|
    ensures Rows(Flatten(m), width, |m|)[i] == m[i]
  {
    var f := Flatten(m);
    Bounds(i, |m|, width);
    FlattenRectLength(m, width);
    RowsAt(f, width, |m|, i);
    RowInFlatten(m, width, i, i * width);
  }

  /** Row `i` of the cut is the slice from `i * width` to `(i + 1) * width`, within bounds when the list is long enough. */
  lemma RowsAt<T>(pixels: seq<T>, width: nat, height: nat, i: nat)
    requires i < height
    requires (i + 1) * width == i * width + width <= |pixels|
    ensures Rows(pixels, width, height)[i] == pixels[i * width .. i * width + width]
  {
  }

  /** Row `i` is the `width` elements from position `i * width` of the flat list. */
  lemma RowInFlatten<T>(m: seq<seq<T>>, width: nat, i: nat, lo: nat)
    requires Rectangular(m, width) && i < |m| && lo == i * width
    requires lo + width <= |Flatten(m)|
    ensures Flatten(m)[lo .. lo + width] == m[i]
  {
    var f := Flatten(m);
    forall j | 0 <= j < width ensures f[lo + j] == m[i][j] {
      FlattenAt(m, width, i, j);
    }
    SliceMatches(f, lo, m[i]);
  }

  lemma SliceMatches<T>(f: seq<T>, lo: nat, row: seq<T>)
    requires lo + |row| <= |f|
    requires forall j :: 0 <= j < |row| ==> f[lo + j] == row[j]
    ensures f[lo .. lo + |row|] == row
  {
  }

  /**
   * The rebuilt image can be filled pixel by pixel exactly when every row is
   * full, which is when there are at least `width * height` pixels; extra
   * pixels are ignored.
   */
  lemma RowsFull<T>(pixels: seq<T>, width: nat, height: nat)
    ensures Rectangular(Rows(pixels, width, height), width) <==> height == 0 || |pixels| >= height * width
  {
    if height > 0 {
      if |pixels| >= height * width {
        RowsAllFull(pixels, width, height);
      } else {
        LastRowShort(pixels, width, height);
      }
    }
  }

  lemma RowsAllFull<T>(pixels: seq<T>, width: nat, height: nat)
    requires |pixels| >= height * width
    ensures Rectangular(Rows(pixels, width, height), width)
  {
    var m := Rows(pixels, width, height);
    forall i | 0 <= i < height ensures |m[i]| == width {
      Bounds(i, height, width);
      RowsAt(pixels, width, height, i);
    }
  }

  lemma LastRowShort<T>(pixels: seq<T>, width: nat, height: nat)
    requires height > 0 && |pixels| < height * width
    ensures |Rows(pixels, width, height)[height - 1]| < width
  {
    var last := height - 1;
    assert (last + 1) * width == last * width + width;
  }

  // ---------------------------------------------------------------------------
  // Run-length encoding of pixels

  /**
   * `comprimir_rle`: the first pixel opens the current run, each further
   * pixel lengthens it or closes it and opens the next, and the last run is
   * closed at the end. The list must not be empty (its first element is read).
   */
  method CompressRle(pixels: seq<Rgb>) returns (runs: seq<Run<Rgb>>)
    requires pixels != []
    ensures runs == Runs(pixels)
    ensures WellFormedRuns(runs)
    ensures TotalCount(runs) == |pixels|
  {
    runs := [];
    var current := pixels[0];
    var count: nat := 1;
    assert pixels[..1] == [] + [current];
    RunsSnocNew([], current);
    for i := 1 to |pixels|
      invariant current == pixels[i - 1]
      invariant count >= 1
      invariant runs + [Run(current, count)] == Runs(pixels[..i])
    {
      var pixel := pixels[i];
      NextPixel(pixels, i, runs, current, count);
      if pixel == current {
        count := count + 1;
      } else {
        runs := runs + [Run(current, count)];
        current := pixel;
        count := 1;
      }
    }
    runs := runs + [Run(current, count)];
    assert pixels[..|pixels|] == pixels;
    RunsWellFormed(pixels);
    RunsRoundTrip(pixels);
  }

  /** One step of the encoder's loop: the next pixel lengthens the current run or closes it. */
  lemma NextPixel<T>(s: seq<T>, i: nat, runs: seq<Run<T>>, current: T, count: nat)
    requires 1 <= i < |s| && current == s[i - 1]
    requires runs + [Run(current, count)] == Runs(s[..i])
    ensures s[i] == current ==> runs + [Run(current, count + 1)] == Runs(s[..i + 1])
    ensures s[i] != current ==> runs + [Run(current, count)] + [Run(s[i], 1)] == Runs(s[..i + 1])
  {
    var p, x := s[..i], s[i];
    assert s[..i + 1] == p + [x];
    if x == current {
      SameValueGrows(p, x, runs, count);
    } else {
      assert p[|p| - 1] == current;
      RunsSnocNew(p, x);
    }
  }

  /** A value equal to the last run's lengthens that run by one. */
  lemma SameValueGrows<T>(p: seq<T>, x: T, runs: seq<Run<T>>, count: nat)
    requires runs + [Run(x, count)] == Runs(p)
    ensures Runs(p + [x]) == runs + [Run(x, count + 1)]
  {
    var prev := Runs(p);
    assert prev[|prev| - 1] == Run(x, count);
    RunsSnocSame(p, x);
    assert prev[..|prev| - 1] == runs;
  }

  /** `descomprimir_rle`: each colour repeated by its count, in order. */
  method DecompressRle(runs: seq<Run<Rgb>>) returns (pixels: seq<Rgb>)
    ensures pixels == Expand(runs)
    ensures |pixels| == TotalCount(runs)
  {
    pixels := [];
    for k := 0 to |runs|
      invariant pixels == Expand(runs[..k])
    {
      assert runs[..k + 1] == runs[..k] + [runs[k]];
      ExpandAppend(runs[..k], runs[k]);
      pixels := pixels + Repeat(runs[k].value, runs[k].count);
    }
    assert runs[..|runs|] == runs;
    ExpandLength(runs);
  }

  /** Decompressing the compressed pixels gives them back, for any non-empty image. */
  method CompressThenDecompress(pixels: seq<Rgb>) returns (back: seq<Rgb>)
    requires pixels != []
    ensures back == pixels
  {
    var runs := CompressRle(pixels);
    back := DecompressRle(runs);
    RunsRoundTrip(pixels);
  }

  /** A matrix whose every element is `c` flattens to a list of `c`s. */
  lemma {:induction false} FlattenConstant<T>(m: seq<seq<T>>, c: T)
    requires forall i, j :: 0 <= i < |m| && 0 <= j < |m[i]| ==> m[i][j] == c
    ensures forall k :: 0 <= k < |Flatten(m)| ==> Flatten(m)[k] == c
  {
    if m != [] {
      FlattenConstant(m[..|m| - 1], c);
    }
  }

  /** An image of one colour compresses to a single run covering all its pixels. */
  lemma UniformImage(m: seq<seq<Rgb>>, width: nat, c: Rgb)
    requires Rectangular(m, width) && |m| * width > 0
    requires forall i, j :: 0 <= i < |m| && 0 <= j < width ==> m[i][j] == c
    ensures Runs(Flatten(m)) == [Run(c, width * |m|)]
  {
    var f := Flatten(m);
    FlattenRectLength(m, width);
    FlattenConstant(m, c);
    RunsOfConstant(f);
  }
}
