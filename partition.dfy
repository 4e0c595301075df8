/** How the coordinator splits a request into work units: a single image is cut
    into W = size-1 row ranges, one per worker rank 1..W; several images are dealt
    out whole, round robin, over min(K, W) ranks. */
module Partition {
  import opened Wire

  function Max(a: nat, b: nat): nat { if a <= b then b else a }

  /** A half-open range of rows [lo, hi). */
  datatype Span = Span(lo: nat, hi: nat) {
    function Length(): nat { if lo <= hi then hi - lo else 0 }
  }

  /** `int(np.ceil(R / W))`, as the integer ceiling of R / W. */
  function ChunkSize(rows: nat, workers: nat): (c: nat)
    requires workers >= 1
    ensures rows <= c * workers < rows + workers
  {
    (rows + workers - 1) / workers
  }

  /** The rows `img[start:end]` selects from an image of `len` rows: Python clamps
      both bounds to the length and an inverted range is empty. */
  function PySlice(start: nat, end: nat, len: nat): (s: Span)
    ensures s.lo <= s.hi <= len
    ensures s.lo == Min(start, len)
    ensures start <= end ==> s.hi == Min(end, len)
    ensures start > end ==> s.hi == s.lo
  {
    var lo := Min(start, len);
    Span(lo, Max(lo, Min(end, len)))
  }

  /** The rows sent to worker rank `i` (1-based): `start_idx = (i-1)*chunk_size`,
      `end_idx = start_idx + chunk_size` except that the last rank's ends at R. */
  function Chunk(rows: nat, workers: nat, i: nat): (s: Span)
    requires 1 <= i <= workers
    ensures s.lo <= s.hi <= rows
    ensures i == workers ==> s.hi == rows
  {
    var c := ChunkSize(rows, workers);
    var start := (i - 1) * c;
    var end := if i < workers then start + c else rows;
    PySlice(start, end, rows)
  }

  /** The whole row plan: entry k is the range for rank k+1. */
  function Plan(rows: nat, workers: nat): (p: seq<Span>)
    requires workers >= 1
    ensures |p| == workers
  {
    seq(workers, k requires 0 <= k < workers => Chunk(rows, workers, k + 1))
  }

  /** `ps` tiles [a, b): consecutive ranges, each well-formed, the first starting
      at a and the last ending at b. */
  predicate Tiles(ps: seq<Span>, a: nat, b: nat) {
    (ps == [] ==> a == b) &&
    (ps != [] ==> ps[0].lo == a && ps[|ps| - 1].hi == b) &&
    (forall k :: 0 <= k < |ps| ==> ps[k].lo <= ps[k].hi) &&
    (forall k :: 0 <= k < |ps| - 1 ==> ps[k].hi == ps[k + 1].lo)
  }

  function TotalLength(ps: seq<Span>): nat {
    if ps == [] then 0 else ps[0].Length() + TotalLength(ps[1..])
  }

  lemma {:induction false} TilesTail(ps: seq<Span>, a: nat, b: nat)
    requires Tiles(ps, a, b) && ps != []
    ensures Tiles(ps[1..], ps[0].hi, b)
  {
    if |ps| == 1 {
      assert ps[0].hi == b;
    } else {
      assert ps[1..][0] == ps[1];
    }
  }

  /** The lengths of ranges that tile [a, b) add up to b - a. */
  lemma {:induction false} TilesLength(ps: seq<Span>, a: nat, b: nat)
    requires Tiles(ps, a, b)
    ensures a <= b && TotalLength(ps) == b - a
    decreases |ps|
  {
    if ps != [] {
      TilesTail(ps, a, b);
      TilesLength(ps[1..], ps[0].hi, b);
    }
  }

  /** Ranges that tile [a, b) come in ascending order and do not overlap. */
  lemma {:induction false} TilesAscending(ps: seq<Span>, a: nat, b: nat, j: nat, k: nat)
    requires Tiles(ps, a, b) && j < k < |ps|
    ensures ps[j].hi <= ps[k].lo
    decreases k - j
  {
    if j + 1 < k {
      TilesAscending(ps, a, b, j + 1, k);
    }
  }

  /** Every row of [a, b) lies in exactly one range of a tiling. */
  lemma {:induction false} TilesCover(ps: seq<Span>, a: nat, b: nat, row: nat) returns (k: nat)
    requires Tiles(ps, a, b) && a <= row < b
    ensures k < |ps| && ps[k].lo <= row < ps[k].hi
    ensures forall j :: 0 <= j < |ps| && ps[j].lo <= row < ps[j].hi ==> j == k
    decreases |ps|
  {
    TilesTail(ps, a, b);
    if row < ps[0].hi {
      k := 0;
    } else {
      var k' := TilesCover(ps[1..], ps[0].hi, b, row);
      k := k' + 1;
      assert ps[k] == ps[1..][k'];
    }
    forall j | 0 <= j < |ps| && ps[j].lo <= row < ps[j].hi
      ensures j == k
    {
      if j < k { TilesAscending(ps, a, b, j, k); }
      if k < j { TilesAscending(ps, a, b, k, j); }
    }
  }

  lemma ChunkBounds(rows: nat, workers: nat, i: nat)
    requires 1 <= i <= workers
    ensures var c := ChunkSize(rows, workers);
      Chunk(rows, workers, i).lo == Min((i - 1) * c, rows) &&
      Chunk(rows, workers, i).hi == (if i < workers then Min(i * c, rows) else rows)
  {
    var c := ChunkSize(rows, workers);
    assert (i - 1) * c + c == i * c;
    assert (i - 1) * c <= i * c;
  }

  /** The row plan of a single-image request: exactly W ranges, ascending,
      contiguous and non-overlapping, starting at row 0 and ending at row R, so
      their lengths add up to R. */
  lemma PlanTiles(rows: nat, workers: nat)
    requires workers >= 1
    ensures Tiles(Plan(rows, workers), 0, rows)
    ensures TotalLength(Plan(rows, workers)) == rows
  {
    var p := Plan(rows, workers);
    ChunkBounds(rows, workers, 1);
    ChunkBounds(rows, workers, workers);
    forall k | 0 <= k < workers - 1
      ensures p[k].hi == p[k + 1].lo
    {
      ChunkBounds(rows, workers, k + 1);
      ChunkBounds(rows, workers, k + 2);
    }
    TilesLength(p, 0, rows);
  }

  /** Every row of the image is sent to exactly one worker rank. */
  lemma PlanCoversEachRowOnce(rows: nat, workers: nat, row: nat) returns (rank: nat)
    requires workers >= 1 && row < rows
    ensures 1 <= rank <= workers
    ensures var s := Chunk(rows, workers, rank); s.lo <= row < s.hi
    ensures forall r :: 1 <= r <= workers && Chunk(rows, workers, r).lo <= row < Chunk(rows, workers, r).hi ==> r == rank
  {
    PlanTiles(rows, workers);
    var p := Plan(rows, workers);
    var k := TilesCover(p, 0, rows, row);
    rank := k + 1;
    forall r | 1 <= r <= workers && Chunk(rows, workers, r).lo <= row < Chunk(rows, workers, r).hi
      ensures r == rank
    {
      assert p[r - 1] == Chunk(rows, workers, r);
    }
  }

  /** The worked examples: 100 rows over 4 workers gives 25,25,25,25 and 102 rows
      gives 26,26,26,24 (the remainder goes to the last rank). */
  lemma PlanExamples()
    ensures Plan(100, 4) == [Span(0, 25), Span(25, 50), Span(50, 75), Span(75, 100)]
    ensures Plan(102, 4) == [Span(0, 26), Span(26, 52), Span(52, 78), Span(78, 102)]
    ensures Plan(5, 4) == [Span(0, 2), Span(2, 4), Span(4, 5), Span(5, 5)]
  {
    assert ChunkSize(100, 4) == 25;
    assert ChunkSize(102, 4) == 26;
    assert ChunkSize(5, 4) == 2;
  }

  /** `num_workers = min(len(images), size - 1)`. */
  function NumWorkers(images: nat, workers: nat): (used: nat)
    ensures used <= images && used <= workers
    ensures used == images || used == workers
  {
    Min(images, workers)
  }

  /** `worker_rank = 1 + (i % num_workers)`. */
  function RankOf(i: nat, used: nat): (rank: nat)
    requires used >= 1
    ensures 1 <= rank <= used
  {
    1 + i % used
  }

  /** The rank each image of a multi-image request is sent to, in submission order. */
  function Assignment(images: nat, workers: nat): (a: seq<nat>)
    requires workers >= 1
    ensures |a| == images
  {
    if images == 0 then []
    else seq(images, i requires 0 <= i < images => RankOf(i, NumWorkers(images, workers)))
  }

  lemma MulAtLeast(d: int, n: int)
    requires d >= 1 && n >= 1
    ensures d * n >= n
  {
  }

  lemma ModUnique(x: int, n: int, q: int, r: int)
    requires n >= 1 && 0 <= r < n && x == q * n + r
    ensures x % n == r
  {
    var q', r' := x / n, x % n;
    assert (q - q') * n == r' - r;
    if q > q' { MulAtLeast(q - q', n); }
    if q < q' { MulAtLeast(q' - q, n); }
  }

  lemma ModShift(i: nat, n: nat)
    requires n >= 1
    ensures (i + n) % n == i % n
  {
    ModUnique(i + n, n, i / n + 1, i % n);
  }

  /** Each image goes to one of the first min(K, W) ranks, images i and i+min(K, W)
      share a rank, and every one of those ranks gets at least one image. */
  lemma AssignmentRanks(images: nat, workers: nat)
    requires workers >= 1
    ensures var a := Assignment(images, workers); var used := NumWorkers(images, workers);
      (forall i :: 0 <= i < images ==> 1 <= a[i] <= used <= workers) &&
      (forall i :: 0 <= i < images - used ==> a[i] == a[i + used]) &&
      (forall k :: 0 <= k < used ==> a[k] == k + 1)
  {
    var a := Assignment(images, workers);
    var used := NumWorkers(images, workers);
    forall i | 0 <= i < images - used
      ensures a[i] == a[i + used]
    {
      ModShift(i, used);
    }
    forall k | 0 <= k < used
      ensures a[k] == k + 1
    {
      ModUnique(k, used, 0, k);
    }
  }

  /** With no more images than workers every image gets a rank of its own; with
      more, the ranks are reused. */
  lemma AssignmentDistinctIffFew(images: nat, workers: nat)
    requires workers >= 1
    ensures (forall i, j :: 0 <= i < j < images ==> Assignment(images, workers)[i] != Assignment(images, workers)[j])
            <==> images <= workers
  {
    var a := Assignment(images, workers);
    if images <= workers {
      forall i, j | 0 <= i < j < images
        ensures a[i] != a[j]
      {
        ModUnique(i, images, 0, i);
        ModUnique(j, images, 0, j);
      }
    } else {
      ModShift(0, workers);
      assert a[0] == 1 && a[workers] == 1;
    }
  }

  /** Three images over two workers go to ranks 1, 2, 1. */
  lemma AssignmentExample()
    ensures Assignment(3, 2) == [1, 2, 1]
  {
  }
}
