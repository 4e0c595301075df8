# Image processing on a cluster: the coordinator's core, in Dafny

The server (`server.py`) is an MPI program. Rank 0, the coordinator, accepts one
TCP client at a time. It reads a request made of:

- a 32-byte operation name;
- an 8-byte big-endian image count;
- for each image, 8-byte big-endian row and column counts and `rows*cols*3` raw
  pixel bytes, read in pieces of at most 4096 bytes.

It then hands the work to the worker ranks `1..W` (`W = size-1`):

- **One image:** the image is cut into `W` row ranges of `ceil(R/W)` rows each,
  and the last range runs to the end. Every rank gets one range. The replies are
  received in rank order, concatenated along the rows and sent back in one piece.
- **Several images:** the images are dealt out whole, round robin, over
  `min(K, W)` ranks. Each reply is forwarded to the client as soon as it arrives.

A worker applies the transform the operation name selects. An unrecognised name
leaves the chunk unchanged.

The model is split into modules:

| module | file | what it holds |
|---|---|---|
| `Wire` | `wire.dfy` | The request framing as functions: big-endian count fields, frame and request decoders, and the encoder a well-behaved client uses, with round-trip lemmas. |
| `Socket` | `socket.dfy` | The client socket as a class. It holds the unread bytes, the bytes sent back and a ghost log of every `recv` buffer size. `recv` is an oracle that returns any non-empty prefix no longer than it was asked for, and nothing once the client has closed its side. |
| `Partition` | `partition.dfy` | The single-image row plan, with Python slice clamping, and the multi-image round-robin rank assignment, as pure functions. |
| `Assembly` | `assembly.dfy` | Row slicing `img[lo:hi, :]` and row concatenation `np.concatenate`. |
| `Transform` | `transform.dfy` | `process_image_chunk`'s selection by name. Colour inversion is concrete. The other transforms are a catalog parameter. |
| `Cluster` | `cluster.dfy` | The MPI communicator as a class that records a trace of sends and receives. What a worker replies is an oracle. |
| `Master` | `master.dfy` | The imperative body of `master_node`. It has the pixel loop, the per-frame and per-request reads, the dispatch and collect loops of both modes, and one full pass of the accept loop. |

The imperative methods are proved against the functions:

- The receive methods leave the socket exactly where the frame decoder `DecodeRequest` stops.
- They return exactly what the decoder returns.
- The dispatch loops produce exactly the send traces `ChunkSends` and `ImageSends`.
- The properties of the protocol are proved about those functions: round trips, tiling, round robin and reassembly.

## Model

| member | source | states |
|---|---|---|
| Wire.BigEndian | server.py:99 | `int.from_bytes(field, "big")`: a field of k bytes decodes to a value below 256^k |
| Wire.BigEndianLeading | server.py:99 | the first byte of a field is the most significant, weighted 256^(k-1) |
| Wire.CountFieldBound | server.py:104-105 | every count field read with `recv(8)` holds a value in [0, 2^64), even when short |
| Wire.DecodeEncode | server.py:104-105 | decoding the 8-byte big-endian encoding of any n < 2^64 gives back n |
| Wire.EncodeDecode | server.py:104-105 | every field is the big-endian encoding of the value it decodes to |
| Wire.Field | server.py:97 | a fixed-width read takes min(width, available) bytes off the front and leaves the rest, in order |
| Wire.DecodeImage | server.py:104-114 | a decoded frame has rows, cols < 2^64 and exactly rows*cols*3 pixel bytes, so the reshape is well-formed |
| Wire.DecodeImages | server.py:102-115 | decoding `count` frames gives exactly `count` well-formed images |
| Wire.DecodeRequest | server.py:97-115 | a decoded request has a name of min(32, available) bytes, fewer than 2^64 images, and only well-formed images |
| Wire.DecodeImageRoundTrip | server.py:104-114 | decoding an encoded frame gives back the image and leaves whatever follows untouched |
| Wire.DecodeImagesRoundTrip | server.py:102-115 | decoding K encoded frames gives back the K images, in order, and leaves the rest untouched |
| Wire.RequestRoundTrip | server.py:97-115 | decoding a well-framed request gives back its name and images and leaves the rest untouched |
| Socket.Connection.constructor | server.py:92 | a freshly accepted connection is open, with nothing read, nothing sent and no `recv` made |
| Socket.Connection.Recv | server.py:112 | `recv(n)` returns a prefix of the unread bytes of at most n bytes, non-empty exactly when bytes remain, and logs n |
| Socket.Connection.RecvField | server.py:97 | a `recv(width)` for a fixed field consumes exactly `Field(unread, width)` and logs width |
| Socket.Connection.SendAll | server.py:152 | `sendall` appends every byte to what the client receives |
| Socket.Connection.Close | server.py:172 | after `close()` the connection is no longer open |
| Partition.ChunkSize | server.py:121 | the chunk size c = ceil(R/W) satisfies R <= c*W < R+W |
| Partition.PySlice | server.py:127 | the range `img[start:end]` selects: both ends clamped to R, never inverted, and empty when start > end |
| Partition.Chunk | server.py:124-127 | rank i's range `img[(i-1)c : (i < W ? i*c : R)]` after Python clamping lies inside the image, and the last rank's range ends at R |
| Partition.ChunkBounds | server.py:124-125 | rank i's range is [min((i-1)c, R), min(ic, R)), and the last rank's range ends at R |
| Partition.Plan | server.py:122-123 | the plan has one range per rank 1..W |
| Partition.PlanTiles | server.py:121-127 | the W ranges start at 0, end at R, are contiguous, ascending and well-formed, and their lengths add up to R |
| Partition.PlanCoversEachRowOnce | server.py:123-127 | every row below R is in the range of exactly one rank |
| Partition.PlanExamples | server.py:121-127 | R=100, W=4 gives 25,25,25,25; R=102 gives 26,26,26,24; R=5 gives 2,2,1,0 |
| Partition.NumWorkers | server.py:155 | `min(K, W)`: at most K and at most W, and equal to one of them |
| Partition.RankOf | server.py:157 | `1 + i % num_workers` lies in 1..num_workers |
| Partition.Assignment | server.py:155-157 | the rank assignment has one entry per image |
| Partition.AssignmentRanks | server.py:155-157 | every image goes to a rank in 1..min(K, W); images i and i+min(K, W) share a rank; the first min(K, W) images go to ranks 1, 2, ... in order |
| Partition.AssignmentDistinctIffFew | server.py:155-157 | all images get different ranks if and only if K <= W |
| Partition.AssignmentExample | server.py:155-157 | three images over two workers go to ranks 1, 2, 1 |
| Assembly.RowSlice | server.py:127 | `img[lo:hi, :]` is a well-formed image with hi-lo rows and the same columns |
| Assembly.Chunks | server.py:123-127 | a single-image request has exactly W chunks |
| Assembly.ChunkAt | server.py:124-127 | chunk k is the slice of rank k+1's range of rows |
| Assembly.ConcatRows | server.py:148 | `np.concatenate` succeeds exactly when there is at least one chunk and all have the same width, which the result keeps |
| Assembly.ConcatShaped | server.py:148 | concatenating well-formed chunks gives a well-formed image whose row count is the sum of theirs |
| Assembly.SlicesReassemble | server.py:123-127 | the slices of a tiling of [a, b), concatenated, are rows a..b of the image, b-a rows of the image's width |
| Assembly.ChunksReassemble | server.py:123-148 | concatenating the W chunks in rank order gives back exactly the original image |
| Assembly.ReassembledRowCount | server.py:136-148 | if every reply has as many rows as its chunk and all have the same width, the reassembled image has R rows |
| Transform.Select | server.py:22-81 | a name selects a transform only if it is that transform's name |
| Transform.SelectByName | server.py:22-86 | each transform is selected by its own name; a name selects nothing exactly when it is none of the nine names |
| Transform.Invert | server.py:29 | `bitwise_not` keeps the shape and maps every byte b to 255-b |
| Transform.InvertTwice | server.py:29 | inverting twice gives back the original |
| Transform.ProcessChunk | server.py:22-86 | an option that is none of the nine names returns the chunk; `color_inversion` inverts it; an option that is the name of any other transform applies that transform |
| Transform.UnknownOptionIsIdentity | server.py:82-86 | a name that is none of the transforms' names leaves the chunk unchanged, whatever the transforms do |
| Transform.InversionTwiceRestores | server.py:27-29 | processing a chunk with `color_inversion` twice restores it |
| Cluster.Comm.constructor | server.py:17-19 | the communicator has `size` ranks and an empty trace |
| Cluster.Comm.Send | server.py:132 | a send to a worker rank appends exactly that send to the trace |
| Cluster.Comm.RecvFrom | server.py:139-142 | a receive from rank i appends a receive from i that delivered the returned image, which is well formed |
| Cluster.Comm.RecvAny | server.py:164-167 | a receive from any source reports a worker rank and appends a receive from that rank that delivered the returned image, which is well formed |
| Master.RequestSize | server.py:110-111 | every pixel read asks for min(4096, bytes still missing), which is between 1 and 4096 |
| Master.ReceivePixels | server.py:108-112 | with enough bytes, exactly rows*cols*3 bytes are taken off the front, the rest are left, and every `recv` asks for 1..4096 bytes; if the client closed early, Truncated |
| Master.AsWrittenPass | server.py:110-112 | one pass of the loop as written, `recv` returning what is available up to the request: no byte is lost or reordered, the buffer never overfills, and it grows whenever bytes remain |
| Master.AsWrittenPixelLoop | server.py:109-112 | n passes of the loop as written: no byte is lost or reordered, and the buffer never shrinks nor overfills |
| Master.AsWrittenDeliversOnFullStream | server.py:109-112 | when the client sends the whole frame, the loop as written ends with exactly the first rows*cols*3 bytes in the buffer and the rest unread |
| Master.AsWrittenSpinsOnClosedConnection | server.py:108-112 | the loop as written, on a closed connection with a short buffer, stays short after any number of passes |
| Master.AsWrittenShortStreamExample | server.py:109-112 | a 1x1 frame (3 pixel bytes) whose third byte never arrives leaves the buffer at 2 bytes after any number of passes |
| Master.ReceiveImage | server.py:104-114 | reading one frame returns exactly what `DecodeImage` decodes and leaves the socket where it stops, with every `recv` bounded |
| Master.ReceiveImages | server.py:102-115 | reading `count` frames returns the images `DecodeImages` decodes, in arrival order, and leaves the socket where it stops |
| Master.ReceiveRequest | server.py:97-115 | reading a request returns exactly what `DecodeRequest` decodes, or its error, and leaves the socket where it stops |
| Master.NameOf | server.py:97 | the name field becomes a string of the same length, one character per byte |
| Master.ChunkSends | server.py:123-132 | a single-image request makes one send per rank |
| Master.RankReceives | server.py:137-139 | a single-image request makes one receive per reply |
| Master.Replies | server.py:139-142 | the replies a run of receives delivered, one per receive |
| Master.RankReceivesInOrder | server.py:137-143 | the rank-order receives come from ranks 1, 2, ..., W in turn, and the replies they delivered are exactly the replies collected, in that order |
| Master.ReceivesOfReplies | server.py:163-167 | a run of worker receives that delivered some replies delivered exactly those replies |
| Master.ImageSends | server.py:156-160 | a multi-image request makes one send per image |
| Master.ChunkSendsCoverImage | server.py:123-132 | rank k+1 gets the k-th send with the request's operation name, and the chunks sent, put together in rank order, are the original image |
| Master.ImageSendsRanks | server.py:155-160 | each image is sent once, in submission order, with the operation name, to a rank in 1..min(K, W) |
| Master.DispatchChunks | server.py:123-132 | the row-chunk send loop appends exactly `ChunkSends` to the trace |
| Master.CollectChunks | server.py:136-143 | the collect loop receives one well-formed reply from each rank 1..W, in ascending order, and result k is the reply rank k+1 sent |
| Master.DispatchImages | server.py:155-160 | the round-robin send loop appends exactly `ImageSends` to the trace |
| Master.ForwardReplies | server.py:163-169 | K receives from worker ranks; the k-th receive delivered reply k, and the replies' bytes are appended to what the client receives in that order |
| Master.ServeSingle | server.py:119-152 | one image: the W sends, then the W receives in rank order; the concatenation of exactly the replies received, in rank order, is sent back, or the pass crashes if they differ in width |
| Master.ServeMany | server.py:154-169 | several images: K sends by round robin, then K receives from worker ranks whose replies' bytes are forwarded in arrival order |
| Master.Serve | server.py:119-172 | the outcome by K and W (`Answered`): K = 0 sends nothing and closes; K >= 1 with W = 0 crashes before any send; K = 1 and K > 1 as above, closing the socket except after a crash, which leaves it open |
| Master.SingleImageEcho | server.py:119-152 | one image, when every rank replies with the chunk it was sent: the client gets back exactly the image's pixels and the socket is closed |
| Master.HandleConnection | server.py:96-172 | a truncated request sends nothing to the workers or the client and closes the socket; a complete one is served as `Answered` says; every `recv` of the pass asks for 1..4096 bytes |

## Left out

- Sockets, MPI and logging are oracles or traces.
  - `recv` hands back any non-empty prefix up to the request.
  - A worker's reply is some well-formed image.
  - `log`, `print` and timing (server.py:8-13) are not modelled.
- The OpenCV transforms are not modelled (server.py:23-81). They are floating-point library code and enter only as the `catalog` parameter of `ProcessChunk`. Colour inversion is the one exception, because it is a per-byte complement.
- The JPEG encode/decode of chunks and replies is not modelled (server.py:130, 141-142, 158, 166-167, 183, 189). It is lossy library code. A work unit carries the chunk itself. `imencode` refusing an empty image is therefore not modelled either: an image with zero rows or zero columns (server.py:158), or a chunk whose range is empty (server.py:130; the last rank's range is empty exactly when (W-1)*c >= R, e.g. R = 5, W = 4), makes `imencode` raise and ends `master_node`, whereas the model serves it.
- The worker loop `worker_node` (server.py:176-192) is not modelled. It is an endless receive/transform/send loop made of MPI and OpenCV calls; `ProcessChunk` models the transform it applies.
- The accept loop and concurrency are not modelled (server.py:91-92). `HandleConnection` is one pass. Connections are handled one at a time.
- The order of multi-image results is not stated. `comm.recv()` takes whichever reply arrives first, so only "K receives from worker ranks, forwarded in the order received" is stated, not which image each reply belongs to.
- Socket.Connection.RecvField: assumes `recv(32)` and `recv(8)` deliver the whole field whenever that many bytes are available. The source does not loop on these reads.
- The client's own framing does not match the server's (client.py:58-61): it sends the bare name followed by the file bytes. The client is not part of this model.
- Master.NameOf: maps each byte to one character. This agrees with `.decode()` on ASCII names. Invalid UTF-8, which raises in the source, is not modelled.
- Partition.ChunkSize: uses integer ceiling. `int(np.ceil(R / (size-1)))` divides in floating point, and the two can differ only once R exceeds 2^53.
- Master.HandleConnection: a crash (`Crashed`) stops the pass with the socket still open. The exception that ends `master_node` there is not modelled further.
- Master.HandleConnection: a truncated request ends in `DecodeFailed` with the socket closed. That is the corrected pixel loop (`ReceivePixels`, used by `ReceiveImage`, `ReceiveImages` and `ReceiveRequest`); the loop as written spins for ever there (server.py:109-112), see Findings.
- Cluster.Comm.Send: a send never blocks. mpi4py's `comm.send` is a standard-mode MPI send, which may wait for the matching receive once a message is too large to buffer. With K > W, rank 1 can block sending its first reply (server.py:192) while the coordinator blocks sending it a further image (server.py:160), since it posts no receive until every send is done (server.py:163-164). That deadlock is not captured; the model ends such a request in `Served`.
- `main.py`, `GUI.py`, `client.py` and `test_Client.py` are not part of this model.

## Findings

| source | as written | input that shows it | evidently intended | confidence | as-written member | corrected member |
|---|---|---|---|---|---|---|
| server.py:109-112 | the pixel loop appends `recv(n)` until the buffer holds rows*cols*3 bytes; once the client has closed, `recv` returns `b""` and the loop spins for ever | a frame header announcing 1x1 pixels (3 bytes) followed by only 2 pixel bytes, then the client closes | stop and report the truncated request when `recv` returns no bytes | not executed | Master.AsWrittenSpinsOnClosedConnection | Master.ReceivePixels |
