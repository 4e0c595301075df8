/** One pass of `master_node`'s accept loop: read a request from the client
    socket, split it into work units for the worker ranks, collect the replies and
    send the processed pixels back, then close the connection. */
module Master {
  import opened Wire
  import opened Socket
  import opened Partition
  import opened Assembly
  import opened Cluster

  /** The buffer size of the next pixel read: 4096, or what is still missing if
      that is less. */
  function RequestSize(total: nat, have: nat): (n: nat)
    requires have < total
    ensures 1 <= n <= MaxRecv && n <= total - have
    ensures n == MaxRecv || n == total - have
  {
    var remaining := total - have;
    if remaining > MaxRecv then MaxRecv else remaining
  }

  /** The pixel loop: read until exactly `total` bytes have arrived, never asking
      for more than 4096 or than is still missing. If the client closes its side
      first, the request fails with Truncated (see AsWrittenPixelLoop for what the
      loop as written does instead). */
  method ReceivePixels(conn: Connection, total: nat) returns (r: Result<seq<Byte>>)
    requires conn.open
    modifies conn`incoming, conn`requested
    ensures |old(conn.incoming)| >= total ==>
      r == Ok(old(conn.incoming)[..total]) && conn.incoming == old(conn.incoming)[total..]
    ensures |old(conn.incoming)| < total ==> r == Err(Truncated) && conn.incoming == []
    ensures BoundedSince(conn.requested, old(conn.requested))
  {
    var raw: seq<Byte> := [];
    while |raw| < total
      invariant |raw| <= total
      invariant old(conn.incoming) == raw + conn.incoming
      invariant conn.open
      invariant BoundedSince(conn.requested, old(conn.requested))
      decreases total - |raw|
    {
      var want := RequestSize(total, |raw|);
      var data := conn.Recv(want);
      if data == [] {
        return Err(Truncated);
      }
      raw := raw + data;
    }
    assert old(conn.incoming)[..total] == raw;
    return Ok(raw);
  }

  /** One pass of the pixel loop exactly as written, when `recv` hands back what
      is available up to the request: once the client has closed its side,
      `recv` returns no bytes and nothing changes. */
  function AsWrittenPass(raw: seq<Byte>, incoming: seq<Byte>, total: nat): (r: (seq<Byte>, seq<Byte>))
    requires |raw| < total
    ensures r.0 + r.1 == raw + incoming
    ensures |raw| <= |r.0| <= total
    ensures incoming != [] ==> |r.0| > |raw|
  {
    var n := Min(RequestSize(total, |raw|), |incoming|);
    (raw + incoming[..n], incoming[n..])
  }

  /** `passes` turns of the loop as written, stopping early once the buffer is full. */
  function AsWrittenPixelLoop(raw: seq<Byte>, incoming: seq<Byte>, total: nat, passes: nat): (r: (seq<Byte>, seq<Byte>))
    ensures r.0 + r.1 == raw + incoming
    ensures |raw| <= |r.0|
    ensures |raw| <= total ==> |r.0| <= total
    decreases passes
  {
    if passes == 0 || |raw| >= total then (raw, incoming)
    else
      var next := AsWrittenPass(raw, incoming, total);
      AsWrittenPixelLoop(next.0, next.1, total, passes - 1)
  }

  /** The loop as written never finishes on a connection closed before the last
      pixel byte: however many passes it makes, the buffer is still short, so
      `while len(raw_image) < bytes_no` stays true for ever. */
  lemma {:induction false} AsWrittenSpinsOnClosedConnection(raw: seq<Byte>, total: nat, passes: nat)
    requires |raw| < total
    ensures AsWrittenPixelLoop(raw, [], total, passes) == (raw, [])
    decreases passes
  {
    if passes > 0 {
      var empty: seq<Byte> := [];
      assert raw + empty[..0] == raw;
      assert AsWrittenPass(raw, [], total) == (raw, []);
      AsWrittenSpinsOnClosedConnection(raw, total, passes - 1);
    }
  }

  /** When the client sends at least the whole frame, the loop as written is
      correct: after enough passes the buffer holds exactly the first `total`
      bytes and the rest are left unread. */
  lemma {:induction false} AsWrittenDeliversOnFullStream(raw: seq<Byte>, incoming: seq<Byte>, total: nat, passes: nat)
    requires |raw| <= total <= |raw| + |incoming|
    requires passes >= total - |raw|
    ensures AsWrittenPixelLoop(raw, incoming, total, passes) ==
      (raw + incoming[..total - |raw|], incoming[total - |raw|..])
    decreases passes
  {
    if |raw| == total {
      assert incoming[..0] == [] && incoming[0..] == incoming;
      assert raw + [] == raw;
    } else {
      var next := AsWrittenPass(raw, incoming, total);
      assert AsWrittenPixelLoop(raw, incoming, total, passes) == AsWrittenPixelLoop(next.0, next.1, total, passes - 1);
      var n := |next.0| - |raw|;
      assert next.0 == raw + incoming[..n] && next.1 == incoming[n..];
      AsWrittenDeliversOnFullStream(next.0, next.1, total, passes - 1);
      var m := total - |raw|;
      assert incoming[n..][..m - n] == incoming[n..m];
      assert incoming[..n] + incoming[n..m] == incoming[..m];
      assert incoming[n..][m - n..] == incoming[m..];
      assert (raw + incoming[..n]) + incoming[n..m] == raw + incoming[..m];
    }
  }

  /** On a stream that ends one byte short, the loop as written is still short
      after any number of passes; the corrected loop reports Truncated. */
  lemma AsWrittenShortStreamExample(passes: nat)
    ensures AsWrittenPixelLoop([1, 2], [], 3, passes).0 == [1, 2]
  {
    AsWrittenSpinsOnClosedConnection([1, 2], 3, passes);
  }

  /** The log `now` extends `before`, and every `recv` made since asked for
      between 1 and 4096 bytes. */
  ghost predicate BoundedSince(now: seq<nat>, before: seq<nat>)
    decreases |now|
  {
    now == before ||
    (|now| > |before| && 1 <= now[|now| - 1] <= MaxRecv && BoundedSince(now[..|now| - 1], before))
  }

  lemma BoundedSinceOne(a: seq<nat>, w: nat)
    requires 1 <= w <= MaxRecv
    ensures BoundedSince(a + [w], a)
  {
    assert (a + [w])[..|a|] == a;
  }

  lemma {:induction false} BoundedSinceTrans(a: seq<nat>, b: seq<nat>, c: seq<nat>)
    requires BoundedSince(b, a) && BoundedSince(c, b)
    ensures BoundedSince(c, a)
    decreases |c|
  {
    if c != b {
      BoundedSinceTrans(a, b, c[..|c| - 1]);
    }
  }

  /** One image frame: rows and cols fields, then the pixel loop. */
  method ReceiveImage(conn: Connection) returns (r: Result<Image>)
    requires conn.open
    modifies conn`incoming, conn`requested
    ensures r.Ok? ==> DecodeImage(old(conn.incoming)) == Ok((r.value, conn.incoming))
    ensures r.Err? ==> DecodeImage(old(conn.incoming)) == Err(r.error)
    ensures BoundedSince(conn.requested, old(conn.requested))
  {
    var rowField := conn.RecvField(CountWidth);
    BoundedSinceOne(old(conn.requested), CountWidth);
    ghost var log := conn.requested;
    var colField := conn.RecvField(CountWidth);
    BoundedSinceOne(log, CountWidth);
    BoundedSinceTrans(old(conn.requested), log, conn.requested);
    var rows := BigEndian(rowField);
    var cols := BigEndian(colField);
    ghost var mid := conn.requested;
    var pixels := ReceivePixels(conn, PixelBytes(rows, cols));
    BoundedSinceTrans(old(conn.requested), mid, conn.requested);
    if pixels.Err? {
      return Err(pixels.error);
    }
    return Ok(Image(rows, cols, pixels.value));
  }

  /** Prepends frames already read to the outcome of decoding the rest. */
  function Prepend(done: seq<Image>, rest: Result<(seq<Image>, seq<Byte>)>): Result<(seq<Image>, seq<Byte>)> {
    if rest.Err? then rest else Ok((done + rest.value.0, rest.value.1))
  }

  lemma PrependNothing(rest: Result<(seq<Image>, seq<Byte>)>)
    ensures Prepend([], rest) == rest
  {
    if rest.Ok? {
      assert [] + rest.value.0 == rest.value.0;
    }
  }

  lemma PrependTwice(done: seq<Image>, img: Image, rest: Result<(seq<Image>, seq<Byte>)>)
    ensures Prepend(done, Prepend([img], rest)) == Prepend(done + [img], rest)
  {
    if rest.Ok? {
      assert done + ([img] + rest.value.0) == (done + [img]) + rest.value.0;
    }
  }

  /** Reading one more frame successfully moves it from the outcome still to be
      decoded onto the end of the frames already read. */
  lemma ReadOneMore(done: seq<Image>, before: seq<Byte>, img: Image, after: seq<Byte>, n: nat)
    requires n >= 1 && DecodeImage(before) == Ok((img, after))
    ensures Prepend(done, DecodeImages(before, n)) == Prepend(done + [img], DecodeImages(after, n - 1))
  {
    DecodeImagesStep(before, n);
    PrependTwice(done, img, DecodeImages(after, n - 1));
  }

  /** Decoding n >= 1 frames is decoding one and then n-1 more, error included:
      the unfolding the reading loop takes one frame at a time (`Wire.DecodeImagesCons`
      is the success-only form the round-trip proof uses). */
  lemma DecodeImagesStep(s: seq<Byte>, n: nat)
    requires n >= 1
    ensures DecodeImage(s).Err? ==> DecodeImages(s, n) == Err(DecodeImage(s).error)
    ensures DecodeImage(s).Ok? ==>
      DecodeImages(s, n) == Prepend([DecodeImage(s).value.0], DecodeImages(DecodeImage(s).value.1, n - 1))
  {
  }

  /** The request decoder reads the name field, then the count field, then frames. */
  lemma DecodeRequestStep(s: seq<Byte>)
    ensures var (name, s1) := Field(s, NameWidth);
      var (countField, s2) := Field(s1, CountWidth);
      var frames := DecodeImages(s2, BigEndian(countField));
      (frames.Err? ==> DecodeRequest(s) == Err(frames.error)) &&
      (frames.Ok? ==> DecodeRequest(s) == Ok((Request(name, frames.value.0), frames.value.1)))
  {
  }

  /** `for _ in range(images_no)`: reads `count` frames, appending each decoded
      image in arrival order. */
  method ReceiveImages(conn: Connection, count: nat) returns (r: Result<seq<Image>>)
    requires conn.open
    modifies conn`incoming, conn`requested
    ensures var d := DecodeImages(old(conn.incoming), count);
      (d.Ok? ==> r == Ok(d.value.0) && conn.incoming == d.value.1) && (d.Err? ==> r == Err(d.error))
    ensures BoundedSince(conn.requested, old(conn.requested))
  {
    ghost var whole := DecodeImages(conn.incoming, count);
    ghost var start := conn.requested;
    var images: seq<Image> := [];
    PrependNothing(whole);
    for i := 0 to count
      invariant |images| == i
      invariant BoundedSince(conn.requested, start)
      invariant whole == Prepend(images, DecodeImages(conn.incoming, count - i))
    {
      ghost var before := conn.incoming;
      ghost var log := conn.requested;
      var img := ReceiveImage(conn);
      BoundedSinceTrans(start, log, conn.requested);
      if img.Err? {
        DecodeImagesStep(before, count - i);
        return Err(img.error);
      }
      ReadOneMore(images, before, img.value, conn.incoming, count - i);
      images := images + [img.value];
    }
    assert DecodeImages(conn.incoming, 0) == Ok(([], conn.incoming));
    assert images + [] == images;
    return Ok(images);
  }

  /** Reads the operation-name field, the image count and then the frames. */
  method ReceiveRequest(conn: Connection) returns (r: Result<Request>)
    requires conn.open
    modifies conn`incoming, conn`requested
    ensures var d := DecodeRequest(old(conn.incoming));
      (d.Ok? ==> r == Ok(d.value.0) && conn.incoming == d.value.1) && (d.Err? ==> r == Err(d.error))
    ensures BoundedSince(conn.requested, old(conn.requested))
  {
    DecodeRequestStep(conn.incoming);
    var option := conn.RecvField(NameWidth);
    BoundedSinceOne(old(conn.requested), NameWidth);
    ghost var log := conn.requested;
    var countField := conn.RecvField(CountWidth);
    BoundedSinceOne(log, CountWidth);
    BoundedSinceTrans(old(conn.requested), log, conn.requested);
    log := conn.requested;
    var images := ReceiveImages(conn, BigEndian(countField));
    BoundedSinceTrans(old(conn.requested), log, conn.requested);
    if images.Err? {
      return Err(images.error);
    }
    return Ok(Request(option, images.value));
  }

  /** `recv(32).decode()`: the name field as text, one character per byte (this
      agrees with UTF-8 decoding on every ASCII name). */
  function NameOf(field: seq<Byte>): (name: string)
    ensures |name| == |field|
    ensures forall i :: 0 <= i < |field| ==> name[i] as int == field[i]
  {
    seq(|field|, i requires 0 <= i < |field| => field[i] as char)
  }

  /** The sends of a single-image request, in order: rank k+1 gets chunk k. */
  function ChunkSends(img: Image, option: string, workers: nat): (t: seq<Event>)
    requires img.Shaped() && workers >= 1
    ensures |t| == workers
  {
    var cs := Chunks(img, workers);
    seq(workers, k requires 0 <= k < workers => Sent(k + 1, WorkUnit(cs[k], option)))
  }

  /** The receives of a single-image request that got `replies`: reply k from
      rank k+1, ranks ascending. */
  function RankReceives(replies: seq<Image>): (t: seq<Event>)
    ensures |t| == |replies|
  {
    seq(|replies|, k requires 0 <= k < |replies| => Received(k + 1, replies[k]))
  }

  /** The replies a sequence of receives delivered, in the order received. */
  function Replies(t: seq<Event>): (r: seq<Image>)
    requires forall k :: 0 <= k < |t| ==> t[k].Received?
    ensures |r| == |t|
  {
    seq(|t|, k requires 0 <= k < |t| => t[k].reply)
  }

  /** A trace segment of receives from worker ranks 1..W that delivered
      `replies`, in that order. */
  predicate ReceivesOf(t: seq<Event>, replies: seq<Image>, workers: nat) {
    |t| == |replies| &&
    forall k :: 0 <= k < |t| ==> t[k].Received? && 1 <= t[k].source <= workers && t[k].reply == replies[k]
  }

  /** The rank-order receives come from ranks 1, 2, ..., W in turn and deliver
      exactly the replies they were built from. */
  lemma RankReceivesInOrder(replies: seq<Image>)
    ensures ReceivesOf(RankReceives(replies), replies, |replies|)
    ensures Replies(RankReceives(replies)) == replies
    ensures forall k :: 0 <= k < |replies| ==> RankReceives(replies)[k].source == k + 1
  {
  }

  /** What a segment of worker receives delivered is the replies it records. */
  lemma ReceivesOfReplies(t: seq<Event>, replies: seq<Image>, workers: nat)
    requires ReceivesOf(t, replies, workers)
    ensures forall k :: 0 <= k < |t| ==> t[k].Received?
    ensures Replies(t) == replies
  {
  }

  /** The sends of a multi-image request: image i goes to rank 1 + i % min(K, W). */
  function ImageSends(images: seq<Image>, option: string, workers: nat): (t: seq<Event>)
    requires workers >= 1
    ensures |t| == |images|
  {
    var a := Assignment(|images|, workers);
    seq(|images|, i requires 0 <= i < |images| => Sent(a[i], WorkUnit(images[i], option)))
  }

  function Payloads(t: seq<Event>): seq<Image>
    requires forall k :: 0 <= k < |t| ==> t[k].Sent?
  {
    seq(|t|, k requires 0 <= k < |t| => t[k].unit.chunk)
  }

  /** A single-image request sends exactly one unit to each rank 1..W, in
      ascending rank order, and the chunks sent put back together in that order
      are the original image. */
  lemma ChunkSendsCoverImage(img: Image, option: string, workers: nat)
    requires img.Shaped() && workers >= 1
    ensures var t := ChunkSends(img, option, workers);
      (forall k :: 0 <= k < workers ==> t[k].Sent? && t[k].dest == k + 1 && t[k].unit.option == option) &&
      ConcatRows(Payloads(t)) == Some(img)
  {
    var t := ChunkSends(img, option, workers);
    assert Payloads(t) == Chunks(img, workers);
    ChunksReassemble(img, workers);
  }

  /** A multi-image request sends each image exactly once, in submission order,
      to a rank in 1..min(K, W). */
  lemma ImageSendsRanks(images: seq<Image>, option: string, workers: nat)
    requires workers >= 1
    ensures var t := ImageSends(images, option, workers);
      (forall i :: 0 <= i < |images| ==> t[i].Sent? && t[i].unit == WorkUnit(images[i], option)) &&
      (forall i :: 0 <= i < |images| ==> 1 <= t[i].dest <= NumWorkers(|images|, workers) <= workers)
  {
    AssignmentRanks(|images|, workers);
  }

  /** Entry k of the single-image sends is rank k+1's slice of rows. */
  lemma ChunkSendAt(img: Image, option: string, workers: nat, k: nat)
    requires img.Shaped() && workers >= 1 && k < workers
    ensures var s := Chunk(img.rows, workers, k + 1);
      s.lo <= s.hi <= img.rows &&
      ChunkSends(img, option, workers)[k] == Sent(k + 1, WorkUnit(RowSlice(img, s), option))
  {
    ChunkAt(img, workers, k);
  }

  /** The first loop of row-chunk mode: rank i gets rows
      [(i-1)*chunk_size, i*chunk_size), the last rank up to the end. */
  method DispatchChunks(comm: Comm, img: Image, option: string)
    requires img.Shaped() && comm.size >= 2
    modifies comm`trace
    ensures comm.trace == old(comm.trace) + ChunkSends(img, option, comm.size - 1)
  {
    var workers := comm.size - 1;
    ghost var sends := ChunkSends(img, option, workers);
    for i := 1 to comm.size
      invariant comm.trace == old(comm.trace) + sends[..i - 1]
    {
      var span := Chunk(img.rows, workers, i);
      ChunkSendAt(img, option, workers, i - 1);
      comm.Send(i, WorkUnit(RowSlice(img, span), option));
      assert sends[..i] == sends[..i - 1] + [sends[i - 1]];
    }
    assert sends[..workers] == sends;
  }

  /** The second loop of row-chunk mode: one reply from each rank 1..W, in
      ascending rank order; result k is the reply rank k+1 sent. */
  method CollectChunks(comm: Comm) returns (results: seq<Image>)
    requires comm.size >= 2
    modifies comm`trace
    ensures |results| == comm.size - 1
    ensures forall k :: 0 <= k < |results| ==> results[k].Shaped()
    ensures comm.trace == old(comm.trace) + RankReceives(results)
  {
    var workers := comm.size - 1;
    results := [];
    for i := 1 to workers + 1
      invariant |results| == i - 1
      invariant forall k :: 0 <= k < |results| ==> results[k].Shaped()
      invariant comm.trace == old(comm.trace) + RankReceives(results)
    {
      var reply := comm.RecvFrom(i);
      assert RankReceives(results + [reply]) == RankReceives(results) + [Received(i, reply)];
      results := results + [reply];
    }
  }

  /** The first loop of multi-image mode. */
  method DispatchImages(comm: Comm, images: seq<Image>, option: string)
    requires comm.size >= 2
    modifies comm`trace
    ensures comm.trace == old(comm.trace) + ImageSends(images, option, comm.size - 1)
  {
    var workers := comm.size - 1;
    var used := NumWorkers(|images|, workers);
    for i := 0 to |images|
      invariant comm.trace == old(comm.trace) + ImageSends(images, option, workers)[..i]
    {
      var rank := RankOf(i, used);
      comm.Send(rank, WorkUnit(images[i], option));
      assert ImageSends(images, option, workers)[..i + 1] == ImageSends(images, option, workers)[..i] + [Sent(rank, WorkUnit(images[i], option))];
    }
    assert ImageSends(images, option, workers)[..|images|] == ImageSends(images, option, workers);
  }

  lemma {:induction false} FlattenAppend(imgs: seq<Image>, img: Image)
    ensures Flatten(imgs + [img]) == Flatten(imgs) + img.pixels
  {
    if imgs == [] {
      assert imgs + [img] == [img];
    } else {
      assert (imgs + [img])[1..] == imgs[1..] + [img];
      FlattenAppend(imgs[1..], img);
    }
  }

  /** The second loop of multi-image mode: `count` replies from any rank, each
      written back to the client as soon as it arrives: the bytes sent are the
      replies received, in the order they were received. */
  method ForwardReplies(comm: Comm, conn: Connection, count: nat) returns (replies: seq<Image>)
    requires comm.size >= 2 && conn.open
    modifies comm`trace, conn`outgoing
    ensures |replies| == count
    ensures forall k :: 0 <= k < count ==> replies[k].Shaped()
    ensures conn.outgoing == old(conn.outgoing) + Flatten(replies)
    ensures |comm.trace| == |old(comm.trace)| + count
    ensures comm.trace[..|old(comm.trace)|] == old(comm.trace)
    ensures ReceivesOf(comm.trace[|old(comm.trace)|..], replies, comm.size - 1)
  {
    replies := [];
    for i := 0 to count
      invariant |replies| == i
      invariant forall k :: 0 <= k < i ==> replies[k].Shaped()
      invariant conn.outgoing == old(conn.outgoing) + Flatten(replies)
      invariant |comm.trace| == |old(comm.trace)| + i
      invariant comm.trace[..|old(comm.trace)|] == old(comm.trace)
      invariant ReceivesOf(comm.trace[|old(comm.trace)|..], replies, comm.size - 1)
    {
      ghost var before := comm.trace;
      var source, reply := comm.RecvAny();
      assert comm.trace[|old(comm.trace)|..] == before[|old(comm.trace)|..] + [Received(source, reply)];
      conn.SendAll(reply.pixels);
      FlattenAppend(replies, reply);
      replies := replies + [reply];
    }
  }

  datatype Crash =
    | DivisionByZero       // no worker ranks: `R / (size-1)` or `i % min(K, size-1)`
    | ConcatenateMismatch  // chunk replies of different widths: `np.concatenate` raises

  datatype Outcome =
    | Served           // the reply (possibly empty) was written and the socket closed
    | DecodeFailed     // the client closed before the request was complete
    | Crashed(why: Crash)  // an exception escapes `master_node`

  /** Row-chunk mode for a single image: dispatch the W chunks, collect one
      reply per rank in rank order, concatenate them and send the result back. */
  method ServeSingle(conn: Connection, comm: Comm, img: Image, option: string)
    returns (outcome: Outcome, replies: seq<Image>)
    requires conn.open && comm.size >= 2 && img.Shaped()
    modifies conn`outgoing, comm`trace
    ensures var w := comm.size - 1;
      comm.trace == old(comm.trace) + ChunkSends(img, option, w) + RankReceives(replies) &&
      |replies| == w && (forall k :: 0 <= k < w ==> replies[k].Shaped())
    ensures ConcatRows(replies).Some? ==>
      outcome == Served && conn.outgoing == old(conn.outgoing) + ConcatRows(replies).value.pixels
    ensures ConcatRows(replies).None? ==>
      outcome == Crashed(ConcatenateMismatch) && conn.outgoing == old(conn.outgoing)
  {
    DispatchChunks(comm, img, option);
    replies := CollectChunks(comm);
    var assembled := ConcatRows(replies);
    if assembled.None? {
      return Crashed(ConcatenateMismatch), replies;
    }
    conn.SendAll(assembled.value.pixels);
    return Served, replies;
  }

  /** Multi-image mode: deal the images out round robin, then forward each reply
      to the client as it arrives. */
  method ServeMany(conn: Connection, comm: Comm, images: seq<Image>, option: string)
    returns (replies: seq<Image>)
    requires conn.open && comm.size >= 2
    modifies conn`outgoing, comm`trace
    ensures var k := |images|;
      |replies| == k && (forall i :: 0 <= i < k ==> replies[i].Shaped()) &&
      conn.outgoing == old(conn.outgoing) + Flatten(replies) &&
      |comm.trace| == |old(comm.trace)| + 2 * k &&
      comm.trace[..|old(comm.trace)| + k] == old(comm.trace) + ImageSends(images, option, comm.size - 1) &&
      ReceivesOf(comm.trace[|old(comm.trace)| + k..], replies, comm.size - 1)
  {
    DispatchImages(comm, images, option);
    ghost var sent := comm.trace;
    replies := ForwardReplies(comm, conn, |images|);
    assert comm.trace[..|old(comm.trace)| + |images|] == sent;
    assert comm.trace[|old(comm.trace)| + |images|..] == comm.trace[|sent|..];
  }

  /** What serving a decoded request does to the MPI trace (from `trace0` to
      `trace`), to the bytes sent to the client (from `out0` to `out`) and to the
      socket, by the number of images K and the number of worker ranks W:
      K = 0 sends nothing and closes; K >= 1 with W = 0 crashes before any send;
      K = 1 sends one chunk to each rank in rank order, receives from each rank in
      rank order and replies with the concatenation, or crashes if the replies
      cannot be concatenated; K > 1 deals the images out round robin, receives K
      replies from worker ranks and forwards each one as it arrives. */
  ghost predicate Answered(request: Request, size: nat, trace0: seq<Event>, trace: seq<Event>,
                           out0: seq<Byte>, out: seq<Byte>, open: bool, outcome: Outcome, replies: seq<Image>)
    requires forall i :: 0 <= i < |request.images| ==> request.images[i].Shaped()
  {
    var option := NameOf(request.option);
    var k := |request.images|;
    (k == 0 ==>
       outcome == Served && !open && trace == trace0 && out == out0) &&
    (k >= 1 && size <= 1 ==>
       outcome == Crashed(DivisionByZero) && open && trace == trace0 && out == out0) &&
    (k == 1 && size >= 2 ==>
       trace == trace0 + ChunkSends(request.images[0], option, size - 1) + RankReceives(replies) &&
       |replies| == size - 1 &&
       (ConcatRows(replies).Some? ==>
          outcome == Served && !open && out == out0 + ConcatRows(replies).value.pixels) &&
       (ConcatRows(replies).None? ==>
          outcome == Crashed(ConcatenateMismatch) && open && out == out0)) &&
    (k > 1 && size >= 2 ==>
       outcome == Served && !open && |replies| == k &&
       out == out0 + Flatten(replies) &&
       |trace| == |trace0| + 2 * k &&
       trace[..|trace0| + k] == trace0 + ImageSends(request.images, option, size - 1) &&
       ReceivesOf(trace[|trace0| + k..], replies, size - 1))
  }

  /** End to end for one image: when every worker rank answers with the chunk it
      was sent unchanged (the identity transform), the client receives exactly
      the pixels of the image it sent and the socket is closed. */
  lemma SingleImageEcho(request: Request, size: nat, trace0: seq<Event>, trace: seq<Event>,
                        out0: seq<Byte>, out: seq<Byte>, open: bool, outcome: Outcome, replies: seq<Image>)
    requires |request.images| == 1 && request.images[0].Shaped() && size >= 2
    requires Answered(request, size, trace0, trace, out0, out, open, outcome, replies)
    requires replies == Chunks(request.images[0], size - 1)
    ensures outcome == Served && !open
    ensures out == out0 + request.images[0].pixels
  {
    ChunksReassemble(request.images[0], size - 1);
  }

  /** Everything after the request has been read: dispatch by image count,
      reply to the client and close the socket. */
  method Serve(conn: Connection, comm: Comm, request: Request) returns (outcome: Outcome, replies: seq<Image>)
    requires conn.open && comm.size >= 1
    requires forall i :: 0 <= i < |request.images| ==> request.images[i].Shaped()
    modifies conn`outgoing, conn`open, comm`trace
    ensures Answered(request, comm.size, old(comm.trace), comm.trace, old(conn.outgoing), conn.outgoing,
                     conn.open, outcome, replies)
  {
    replies := [];
    var images := request.images;
    var option := NameOf(request.option);
    if |images| >= 1 && comm.size == 1 {
      return Crashed(DivisionByZero), replies;
    }
    if |images| == 1 {
      outcome, replies := ServeSingle(conn, comm, images[0], option);
      if outcome.Crashed? {
        return;
      }
    } else if |images| > 1 {
      replies := ServeMany(conn, comm, images, option);
    }
    conn.Close();
    return Served, replies;
  }

  /** One accepted connection, from the first byte read to `client_socket.close()`:
      a request the client did not finish sending is reported and the socket
      closed with nothing dispatched; a complete one is served as `Answered` says,
      every `recv` of the connection asking for between 1 and 4096 bytes. */
  method HandleConnection(conn: Connection, comm: Comm) returns (outcome: Outcome, replies: seq<Image>)
    requires conn.open && comm.size >= 1
    modifies conn, comm`trace
    ensures BoundedSince(conn.requested, old(conn.requested))
    ensures var d := DecodeRequest(old(conn.incoming));
      d.Err? ==>
        outcome == DecodeFailed && !conn.open &&
        comm.trace == old(comm.trace) && conn.outgoing == old(conn.outgoing)
    ensures var d := DecodeRequest(old(conn.incoming));
      d.Ok? ==>
        conn.incoming == d.value.1 &&
        Answered(d.value.0, comm.size, old(comm.trace), comm.trace, old(conn.outgoing), conn.outgoing,
                 conn.open, outcome, replies)
  {
    ghost var d := DecodeRequest(conn.incoming);
    var request := ReceiveRequest(conn);
    if request.Err? {
      conn.Close();
      return DecodeFailed, [];
    }
    assert d.Ok? && d.value.0 == request.value;
    outcome, replies := Serve(conn, comm, request.value);
  }
}
