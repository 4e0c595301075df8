/** Row slicing of an image into chunks (`img[start:end, :]`) and the row-axis
    concatenation that puts chunk results back together (`np.concatenate`). */
module Assembly {
  import opened Wire
  import opened Partition

  /** Bytes in one row of a three-channel image. */
  function RowWidth(img: Image): nat { img.cols * Channels }

  lemma MulMonotone(x: nat, y: nat, w: nat)
    requires x <= y
    ensures x * w <= y * w
  {
  }

  lemma ShapedByRows(img: Image)
    ensures img.Shaped() <==> |img.pixels| == img.rows * RowWidth(img)
  {
    assert img.rows * img.cols * Channels == img.rows * (img.cols * Channels);
  }

  /** `img[lo:hi, :]` for a range inside the image: the same columns, hi-lo rows,
      and the bytes of exactly those rows. */
  function RowSlice(img: Image, s: Span): (r: Image)
    requires img.Shaped() && s.lo <= s.hi <= img.rows
    ensures r.Shaped() && r.rows == s.hi - s.lo && r.cols == img.cols
  {
    var w := RowWidth(img);
    ShapedByRows(img);
    MulMonotone(s.lo, s.hi, w);
    MulMonotone(s.hi, img.rows, w);
    var r := Image(s.hi - s.lo, img.cols, img.pixels[s.lo * w .. s.hi * w]);
    assert s.hi * w - s.lo * w == (s.hi - s.lo) * w;
    ShapedByRows(r);
    r
  }

  predicate Within(ps: seq<Span>, rows: nat) {
    forall k :: 0 <= k < |ps| ==> ps[k].lo <= ps[k].hi <= rows
  }

  /** The slices of one image for a sequence of ranges, in order. */
  function Slices(img: Image, ps: seq<Span>): (r: seq<Image>)
    requires img.Shaped() && Within(ps, img.rows)
    ensures |r| == |ps|
  {
    if ps == [] then [] else [RowSlice(img, ps[0])] + Slices(img, ps[1..])
  }

  lemma {:induction false} SlicesAt(img: Image, ps: seq<Span>, k: nat)
    requires img.Shaped() && Within(ps, img.rows) && k < |ps|
    ensures Slices(img, ps)[k] == RowSlice(img, ps[k])
    decreases k
  {
    if k > 0 {
      SlicesAt(img, ps[1..], k - 1);
    }
  }

  /** Ranges that tile [a, b) lie inside [a, b). */
  lemma TilesWithin(ps: seq<Span>, a: nat, b: nat)
    requires Tiles(ps, a, b)
    ensures Within(ps, b)
  {
    forall k | 0 <= k < |ps|
      ensures ps[k].hi <= b
    {
      if k < |ps| - 1 {
        TilesAscending(ps, a, b, k, |ps| - 1);
      }
    }
  }

  /** The chunk each worker rank 1..W receives for a single-image request, in rank order. */
  function Chunks(img: Image, workers: nat): (r: seq<Image>)
    requires img.Shaped() && workers >= 1
    ensures |r| == workers
  {
    PlanTiles(img.rows, workers);
    TilesWithin(Plan(img.rows, workers), 0, img.rows);
    Slices(img, Plan(img.rows, workers))
  }

  /** Chunk k of a single-image request is the slice of the rows of rank k+1's range. */
  lemma ChunkAt(img: Image, workers: nat, k: nat)
    requires img.Shaped() && workers >= 1 && k < workers
    ensures var s := Chunk(img.rows, workers, k + 1);
      s.lo <= s.hi <= img.rows && Chunks(img, workers)[k] == RowSlice(img, s)
  {
    PlanTiles(img.rows, workers);
    TilesWithin(Plan(img.rows, workers), 0, img.rows);
    SlicesAt(img, Plan(img.rows, workers), k);
  }

  /** All pixel bytes of a sequence of images, one after the other. */
  function Flatten(imgs: seq<Image>): seq<Byte> {
    if imgs == [] then [] else imgs[0].pixels + Flatten(imgs[1..])
  }

  function TotalRows(imgs: seq<Image>): nat {
    if imgs == [] then 0 else imgs[0].rows + TotalRows(imgs[1..])
  }

  predicate SameCols(imgs: seq<Image>, cols: nat) {
    forall k :: 0 <= k < |imgs| ==> imgs[k].cols == cols
  }

  /** `np.concatenate(chunks)` along the row axis: there must be at least one
      chunk and all must have the same number of columns (otherwise numpy raises);
      the rows of the result are the rows of the chunks in order. */
  function ConcatRows(chunks: seq<Image>): (r: Option<Image>)
    ensures r.Some? <==> chunks != [] && SameCols(chunks, chunks[0].cols)
    ensures r.Some? ==> r.value.cols == chunks[0].cols
  {
    if chunks == [] || !SameCols(chunks, chunks[0].cols) then None
    else Some(Image(TotalRows(chunks), chunks[0].cols, Flatten(chunks)))
  }

  lemma {:induction false} FlattenLength(imgs: seq<Image>, cols: nat)
    requires SameCols(imgs, cols)
    requires forall k :: 0 <= k < |imgs| ==> imgs[k].Shaped()
    ensures |Flatten(imgs)| == PixelBytes(TotalRows(imgs), cols)
  {
    if imgs != [] {
      FlattenLength(imgs[1..], cols);
      assert PixelBytes(TotalRows(imgs), cols)
          == PixelBytes(imgs[0].rows, cols) + PixelBytes(TotalRows(imgs[1..]), cols);
    }
  }

  /** Concatenating well-formed chunks of equal width gives a well-formed image
      whose row count is the sum of the chunks' row counts. */
  lemma ConcatShaped(chunks: seq<Image>)
    requires chunks != [] && SameCols(chunks, chunks[0].cols)
    requires forall k :: 0 <= k < |chunks| ==> chunks[k].Shaped()
    ensures ConcatRows(chunks).Some?
    ensures ConcatRows(chunks).value.Shaped()
    ensures ConcatRows(chunks).value.rows == TotalRows(chunks)
  {
    FlattenLength(chunks, chunks[0].cols);
  }

  /** The bytes of a row slice are the bytes between its first and last row. */
  lemma RowSlicePixels(img: Image, s: Span)
    requires img.Shaped() && s.lo <= s.hi <= img.rows
    ensures s.lo * RowWidth(img) <= s.hi * RowWidth(img) <= |img.pixels|
    ensures RowSlice(img, s).pixels == img.pixels[s.lo * RowWidth(img) .. s.hi * RowWidth(img)]
  {
    ShapedByRows(img);
    MulMonotone(s.lo, s.hi, RowWidth(img));
    MulMonotone(s.hi, img.rows, RowWidth(img));
  }

  lemma {:induction false} SlicesRows(img: Image, ps: seq<Span>, a: nat, b: nat)
    requires img.Shaped() && Tiles(ps, a, b) && Within(ps, img.rows)
    ensures TotalRows(Slices(img, ps)) == b - a
    decreases |ps|
  {
    TilesLength(ps, a, b);
    if ps != [] {
      TilesTail(ps, a, b);
      SlicesRows(img, ps[1..], ps[0].hi, b);
    }
  }

  lemma SlicesCols(img: Image, ps: seq<Span>)
    requires img.Shaped() && Within(ps, img.rows)
    ensures SameCols(Slices(img, ps), img.cols)
  {
    forall k | 0 <= k < |ps|
      ensures Slices(img, ps)[k].cols == img.cols
    {
      SlicesAt(img, ps, k);
    }
  }

  /** The bytes of rows [lo, hi) of an image. */
  function RowBytes(img: Image, lo: nat, hi: nat): seq<Byte>
    requires img.Shaped() && lo <= hi <= img.rows
  {
    RowSlice(img, Span(lo, hi)).pixels
  }

  /** Rows [a, b) are rows [a, m) followed by rows [m, b). */
  lemma RowBytesSplit(img: Image, a: nat, m: nat, b: nat)
    requires img.Shaped() && a <= m <= b <= img.rows
    ensures RowBytes(img, a, b) == RowBytes(img, a, m) + RowBytes(img, m, b)
  {
    RowSlicePixels(img, Span(a, b));
    RowSlicePixels(img, Span(a, m));
    RowSlicePixels(img, Span(m, b));
    var w := RowWidth(img);
    var la, lm, lb := a * w, m * w, b * w;
    assert img.pixels[la .. lb] == img.pixels[la .. lm] + img.pixels[lm .. lb];
  }

  lemma {:induction false} SlicesPixels(img: Image, ps: seq<Span>, a: nat, b: nat)
    requires img.Shaped() && Tiles(ps, a, b) && b <= img.rows && Within(ps, img.rows)
    ensures a <= b && Flatten(Slices(img, ps)) == RowBytes(img, a, b)
    decreases |ps|
  {
    TilesLength(ps, a, b);
    if ps == [] {
      RowSlicePixels(img, Span(a, b));
    } else {
      TilesTail(ps, a, b);
      var m := ps[0].hi;
      assert ps[0] == Span(a, m);
      var first := RowSlice(img, ps[0]);
      var rest := Slices(img, ps[1..]);
      assert Slices(img, ps) == [first] + rest;
      assert ([first] + rest)[1..] == rest;
      SlicesPixels(img, ps[1..], m, b);
      RowBytesSplit(img, a, m, b);
    }
  }

  /** The slices of a tiling of [a, b), concatenated, are exactly rows a..b of the image. */
  lemma SlicesReassemble(img: Image, ps: seq<Span>, a: nat, b: nat)
    requires img.Shaped() && Tiles(ps, a, b) && b <= img.rows && Within(ps, img.rows)
    ensures a <= b && Flatten(Slices(img, ps)) == RowBytes(img, a, b)
    ensures TotalRows(Slices(img, ps)) == b - a && SameCols(Slices(img, ps), img.cols)
  {
    SlicesRows(img, ps, a, b);
    SlicesCols(img, ps);
    SlicesPixels(img, ps, a, b);
  }

  /** Putting the W chunks of a single-image request back together in rank order
      gives back exactly the original image: every row is sent once, in order. */
  lemma ChunksReassemble(img: Image, workers: nat)
    requires img.Shaped() && workers >= 1
    ensures ConcatRows(Chunks(img, workers)) == Some(img)
  {
    var ps := Plan(img.rows, workers);
    PlanTiles(img.rows, workers);
    TilesWithin(ps, 0, img.rows);
    SlicesReassemble(img, ps, 0, img.rows);
    ShapedByRows(img);
    var cs := Chunks(img, workers);
    assert cs[0].cols == img.cols;
    RowSlicePixels(img, Span(0, img.rows));
    assert img.pixels[0 .. img.rows * RowWidth(img)] == img.pixels;
  }

  /** When every worker returns a result with as many rows as the chunk it was
      sent and all results have the same width, the reassembled image has exactly
      the original row count. */
  lemma ReassembledRowCount(img: Image, workers: nat, results: seq<Image>)
    requires img.Shaped() && workers >= 1 && |results| == workers
    requires forall k :: 0 <= k < workers ==> results[k].rows == Chunks(img, workers)[k].rows
    requires SameCols(results, results[0].cols)
    ensures ConcatRows(results).Some? && ConcatRows(results).value.rows == img.rows
  {
    var cs := Chunks(img, workers);
    PlanTiles(img.rows, workers);
    TilesWithin(Plan(img.rows, workers), 0, img.rows);
    SlicesReassemble(img, Plan(img.rows, workers), 0, img.rows);
    SameRowCounts(results, cs);
  }

  lemma {:induction false} SameRowCounts(xs: seq<Image>, ys: seq<Image>)
    requires |xs| == |ys|
    requires forall k :: 0 <= k < |xs| ==> xs[k].rows == ys[k].rows
    ensures TotalRows(xs) == TotalRows(ys)
  {
    if xs != [] {
      SameRowCounts(xs[1..], ys[1..]);
    }
  }
}
