/** The request framing the coordinator reads from a client socket: a fixed-width
    operation-name field, an 8-byte big-endian image count, and per image an 8-byte
    big-endian row count, an 8-byte big-endian column count and rows*cols*3 raw
    pixel bytes (row-major, three channels). */
module Wire {

  /** An unsigned byte, as `np.ubyte` / an element of a Python `bytes` value. */
  type Byte = b: int | 0 <= b < 256

  datatype Result<T> = Ok(value: T) | Err(error: DecodeError)

  datatype Option<T> = None | Some(value: T)

  datatype DecodeError =
    | Truncated   // the client closed the connection before all pixel bytes arrived

  /** Width of the operation-name field (`recv(32)`). */
  const NameWidth: nat := 32
  /** Width of every count field (`recv(8)`). */
  const CountWidth: nat := 8
  /** Bytes per pixel: three interleaved channels. */
  const Channels: nat := 3
  const TwoTo64: nat := 0x1_0000_0000_0000_0000

  function Min(a: nat, b: nat): nat { if a <= b then a else b }

  function Pow256(k: nat): (p: nat)
    ensures p >= 1
  {
    if k == 0 then 1 else 256 * Pow256(k - 1)
  }

  lemma {:induction false} Pow256Monotone(j: nat, k: nat)
    requires j <= k
    ensures Pow256(j) <= Pow256(k)
  {
    if j < k { Pow256Monotone(j, k - 1); }
  }

  /** `int.from_bytes(s, byteorder="big")`: the last byte is the least significant. */
  function BigEndian(s: seq<Byte>): (n: nat)
    ensures n < Pow256(|s|)
  {
    if s == [] then 0 else BigEndian(s[..|s| - 1]) * 256 + s[|s| - 1]
  }

  lemma ShiftByte(a: int, p: int, t: int, l: int)
    ensures (a * p + t) * 256 + l == a * (256 * p) + (t * 256 + l)
  {
  }

  /** Most significant byte first: the first byte carries weight 256^(|s|-1). */
  lemma {:induction false} BigEndianLeading(s: seq<Byte>)
    requires s != []
    ensures BigEndian(s) == s[0] * Pow256(|s| - 1) + BigEndian(s[1..])
  {
    if |s| == 1 {
      assert s[..0] == [] && s[1..] == [];
    } else {
      var init := s[..|s| - 1];
      var rest := s[1..];
      BigEndianLeading(init);
      assert init[1..] == rest[..|rest| - 1];
      assert init[0] == s[0] && rest[|rest| - 1] == s[|s| - 1];
      var p := Pow256(|s| - 2);
      var t := BigEndian(init[1..]);
      assert BigEndian(init) == s[0] * p + t;
      assert BigEndian(rest) == t * 256 + s[|s| - 1];
      assert Pow256(|s| - 1) == 256 * p;
      ShiftByte(s[0], p, t, s[|s| - 1]);
    }
  }

  /** The encoder's inverse: `n.to_bytes(width, byteorder="big")`. */
  function ToBigEndian(n: nat, width: nat): (s: seq<Byte>)
    requires n < Pow256(width)
    ensures |s| == width
  {
    if width == 0 then [] else ToBigEndian(n / 256, width - 1) + [n % 256]
  }

  lemma {:induction false} DecodeEncode(n: nat, width: nat)
    requires n < Pow256(width)
    ensures BigEndian(ToBigEndian(n, width)) == n
  {
    if width > 0 {
      var s := ToBigEndian(n, width);
      assert s[..width - 1] == ToBigEndian(n / 256, width - 1);
      DecodeEncode(n / 256, width - 1);
    }
  }

  lemma {:induction false} EncodeDecode(s: seq<Byte>)
    ensures ToBigEndian(BigEndian(s), |s|) == s
  {
    if s != [] {
      var init := s[..|s| - 1];
      var n := BigEndian(s);
      assert n / 256 == BigEndian(init) && n % 256 == s[|s| - 1];
      EncodeDecode(init);
    }
  }

  /** A count field read with `recv(8)` holds a value in [0, 2^64), even when it is short. */
  lemma CountFieldBound(field: seq<Byte>)
    requires |field| <= CountWidth
    ensures BigEndian(field) < TwoTo64
  {
    Pow256Monotone(|field|, CountWidth);
    assert Pow256(CountWidth) == TwoTo64;
  }

  /** A fixed-width read (`recv(width)`), assumed to deliver the whole field when
      that many bytes are available and whatever is left otherwise. */
  function Field(s: seq<Byte>, width: nat): (r: (seq<Byte>, seq<Byte>))
    ensures r.0 + r.1 == s
    ensures |r.0| == Min(width, |s|)
  {
    var n := Min(width, |s|);
    assert s[..n] + s[n..] == s;
    (s[..n], s[n..])
  }

  /** `rows * cols * 3`: the pixel byte count of a frame. */
  function PixelBytes(rows: nat, cols: nat): nat { rows * cols * Channels }

  /** A decoded image: `np.frombuffer(raw).reshape(rows, cols, 3)`. */
  datatype Image = Image(rows: nat, cols: nat, pixels: seq<Byte>) {
    /** The reshape succeeds exactly when the buffer holds rows*cols*3 bytes. */
    predicate Shaped() { |pixels| == PixelBytes(rows, cols) }
  }

  datatype Request = Request(option: seq<Byte>, images: seq<Image>)

  /** One image frame: rows field, cols field, then exactly rows*cols*3 pixel bytes. */
  function DecodeImage(s: seq<Byte>): (r: Result<(Image, seq<Byte>)>)
    ensures r.Ok? ==> r.value.0.Shaped()
    ensures r.Ok? ==> r.value.0.rows < TwoTo64 && r.value.0.cols < TwoTo64
  {
    var (rowField, s1) := Field(s, CountWidth);
    var (colField, s2) := Field(s1, CountWidth);
    CountFieldBound(rowField);
    CountFieldBound(colField);
    var rows := BigEndian(rowField);
    var cols := BigEndian(colField);
    var n := PixelBytes(rows, cols);
    if |s2| < n then Err(Truncated)
    else Ok((Image(rows, cols, s2[..n]), s2[n..]))
  }

  /** `count` image frames in a row, in order. */
  function DecodeImages(s: seq<Byte>, count: nat): (r: Result<(seq<Image>, seq<Byte>)>)
    ensures r.Ok? ==> |r.value.0| == count
    ensures r.Ok? ==> forall i :: 0 <= i < count ==> r.value.0[i].Shaped()
    decreases count
  {
    if count == 0 then Ok(([], s))
    else
      var first := DecodeImage(s);
      if first.Err? then Err(first.error)
      else
        var more := DecodeImages(first.value.1, count - 1);
        if more.Err? then Err(more.error)
        else Ok(([first.value.0] + more.value.0, more.value.1))
  }

  /** A whole request: name field, image-count field, then the image frames. */
  function DecodeRequest(s: seq<Byte>): (r: Result<(Request, seq<Byte>)>)
    ensures r.Ok? ==> |r.value.0.option| == Min(NameWidth, |s|)
    ensures r.Ok? ==> |r.value.0.images| < TwoTo64
    ensures r.Ok? ==> forall i :: 0 <= i < |r.value.0.images| ==> r.value.0.images[i].Shaped()
  {
    var (name, s1) := Field(s, NameWidth);
    var (countField, s2) := Field(s1, CountWidth);
    CountFieldBound(countField);
    var frames := DecodeImages(s2, BigEndian(countField));
    if frames.Err? then Err(frames.error)
    else Ok((Request(name, frames.value.0), frames.value.1))
  }

  /** A frame a well-behaved client can send: dimensions fit the 8-byte fields. */
  predicate Encodable(img: Image) {
    img.rows < TwoTo64 && img.cols < TwoTo64 && img.Shaped()
  }

  function EncodeImage(img: Image): (s: seq<Byte>)
    requires Encodable(img)
    ensures |s| == 2 * CountWidth + |img.pixels|
  {
    assert Pow256(CountWidth) == TwoTo64;
    ToBigEndian(img.rows, CountWidth) + ToBigEndian(img.cols, CountWidth) + img.pixels
  }

  function EncodeImages(imgs: seq<Image>): seq<Byte>
    requires forall i :: 0 <= i < |imgs| ==> Encodable(imgs[i])
  {
    if imgs == [] then [] else EncodeImage(imgs[0]) + EncodeImages(imgs[1..])
  }

  /** The client side of the framing, with a name already exactly NameWidth bytes long. */
  function EncodeRequest(req: Request): seq<Byte>
    requires |req.option| == NameWidth && |req.images| < TwoTo64
    requires forall i :: 0 <= i < |req.images| ==> Encodable(req.images[i])
  {
    assert Pow256(CountWidth) == TwoTo64;
    req.option + ToBigEndian(|req.images|, CountWidth) + EncodeImages(req.images)
  }

  lemma DecodeImageRoundTrip(img: Image, tail: seq<Byte>)
    requires Encodable(img)
    ensures DecodeImage(EncodeImage(img) + tail) == Ok((img, tail))
  {
    assert Pow256(CountWidth) == TwoTo64;
    var rf := ToBigEndian(img.rows, CountWidth);
    var cf := ToBigEndian(img.cols, CountWidth);
    var s := EncodeImage(img) + tail;
    assert s == rf + (cf + (img.pixels + tail));
    DecodeEncode(img.rows, CountWidth);
    DecodeEncode(img.cols, CountWidth);
    assert Field(s, CountWidth) == (rf, cf + (img.pixels + tail));
    assert Field(cf + (img.pixels + tail), CountWidth) == (cf, img.pixels + tail);
    assert (img.pixels + tail)[..|img.pixels|] == img.pixels;
    assert (img.pixels + tail)[|img.pixels|..] == tail;
  }

  /** Decoding n >= 1 frames: the first frame, then n-1 more after it. This is
      the successful case only, with both decodes given as premises, the shape
      `DecodeImagesRoundTrip` needs; the reading loop uses `Master.DecodeImagesStep`,
      which also covers a failing first frame and is phrased with `Prepend`. */
  lemma DecodeImagesCons(s: seq<Byte>, n: nat, img: Image, rest: seq<Byte>, more: seq<Image>, tail: seq<Byte>)
    requires n >= 1 && DecodeImage(s) == Ok((img, rest))
    requires DecodeImages(rest, n - 1) == Ok((more, tail))
    ensures DecodeImages(s, n) == Ok(([img] + more, tail))
  {
  }

  lemma ConcatAssoc(a: seq<Byte>, b: seq<Byte>, c: seq<Byte>)
    ensures (a + b) + c == a + (b + c)
  {
  }

  /** The first frame of an encoded sequence decodes to the first image. */
  lemma FirstFrameRoundTrip(imgs: seq<Image>, tail: seq<Byte>)
    requires imgs != [] && forall i :: 0 <= i < |imgs| ==> Encodable(imgs[i])
    ensures DecodeImage(EncodeImages(imgs) + tail) == Ok((imgs[0], EncodeImages(imgs[1..]) + tail))
  {
    var rest := EncodeImages(imgs[1..]) + tail;
    ConcatAssoc(EncodeImage(imgs[0]), EncodeImages(imgs[1..]), tail);
    DecodeImageRoundTrip(imgs[0], rest);
  }

  lemma {:induction false} DecodeImagesRoundTrip(imgs: seq<Image>, tail: seq<Byte>)
    requires forall i :: 0 <= i < |imgs| ==> Encodable(imgs[i])
    ensures DecodeImages(EncodeImages(imgs) + tail, |imgs|) == Ok((imgs, tail))
  {
    if imgs != [] {
      var others := imgs[1..];
      FirstFrameRoundTrip(imgs, tail);
      DecodeImagesRoundTrip(others, tail);
      DecodeImagesCons(EncodeImages(imgs) + tail, |imgs|, imgs[0], EncodeImages(others) + tail, others, tail);
      assert [imgs[0]] + others == imgs;
    } else {
      assert EncodeImages(imgs) + tail == tail;
    }
  }

  /** Decoding what a well-behaved client encodes gives back its request and leaves
      whatever follows untouched. */
  lemma RequestRoundTrip(req: Request, tail: seq<Byte>)
    requires |req.option| == NameWidth && |req.images| < TwoTo64
    requires forall i :: 0 <= i < |req.images| ==> Encodable(req.images[i])
    ensures DecodeRequest(EncodeRequest(req) + tail) == Ok((req, tail))
  {
    assert Pow256(CountWidth) == TwoTo64;
    var cf := ToBigEndian(|req.images|, CountWidth);
    var body := EncodeImages(req.images) + tail;
    var s := EncodeRequest(req) + tail;
    assert s == req.option + (cf + body);
    assert Field(s, NameWidth) == (req.option, cf + body);
    assert Field(cf + body, CountWidth) == (cf, body);
    DecodeEncode(|req.images|, CountWidth);
    DecodeImagesRoundTrip(req.images, tail);
  }
}
