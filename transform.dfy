/** `process_image_chunk`: the worker-side selection of a transform by its name.
    The transforms themselves are library calls (OpenCV) and stay opaque, supplied
    as a catalog function, except colour inversion, which is a plain per-byte
    complement; a name that is not recognised leaves the chunk as it is. */
module Transform {
  import opened Wire

  datatype Op =
    | EdgeDetection | ColorInversion | GaussianBlur | Sharpen | HistogramEqualization
    | AdaptiveThreshold | Dilation | Erosion | Enhance

  /** The name a client selects each transform by. */
  function Name(op: Op): string {
    match op
    case EdgeDetection => "edge_detection"
    case ColorInversion => "color_inversion"
    case GaussianBlur => "gaussian_blur"
    case Sharpen => "sharpen"
    case HistogramEqualization => "histogram_equalization"
    case AdaptiveThreshold => "adaptive_threshold"
    case Dilation => "dilation"
    case Erosion => "erosion"
    case Enhance => "enhance"
  }

  /** The if/elif chain over the option name, in the order the source tests it. */
  function Select(option: string): (r: Option<Op>)
    ensures r.Some? ==> Name(r.value) == option
  {
    if option == "edge_detection" then Some(EdgeDetection)
    else if option == "color_inversion" then Some(ColorInversion)
    else if option == "gaussian_blur" then Some(GaussianBlur)
    else if option == "sharpen" then Some(Sharpen)
    else if option == "histogram_equalization" then Some(HistogramEqualization)
    else if option == "adaptive_threshold" then Some(AdaptiveThreshold)
    else if option == "dilation" then Some(Dilation)
    else if option == "erosion" then Some(Erosion)
    else if option == "enhance" then Some(Enhance)
    else None
  }

  /** Every transform is selected by its own name and by no other, and a name
      selects nothing exactly when it is none of the nine names. */
  lemma SelectByName(option: string)
    ensures forall op :: Name(op) == option ==> Select(option) == Some(op)
    ensures Select(option).None? <==> forall op :: Name(op) != option
  {
  }

  /** `cv2.bitwise_not` on 8-bit channels: every byte b becomes 255 - b. */
  function Invert(img: Image): (r: Image)
    ensures r.rows == img.rows && r.cols == img.cols && |r.pixels| == |img.pixels|
    ensures forall i :: 0 <= i < |img.pixels| ==> r.pixels[i] as int + img.pixels[i] as int == 255
  {
    Image(img.rows, img.cols, seq(|img.pixels|, i requires 0 <= i < |img.pixels| => 255 - img.pixels[i]))
  }

  /** Inverting twice gives back the original chunk. */
  lemma InvertTwice(img: Image)
    ensures Invert(Invert(img)) == img
  {
    var twice := Invert(Invert(img));
    assert twice.pixels == img.pixels;
  }

  /** `process_image_chunk(chunk, option)`: the transform whose name the option
      is, or the chunk unchanged when the option names none of them. */
  function ProcessChunk(chunk: Image, option: string, catalog: (Op, Image) -> Image): (r: Image)
    ensures (forall op :: Name(op) != option) ==> r == chunk
    ensures option == Name(ColorInversion) ==> r == Invert(chunk)
    ensures forall op :: op != ColorInversion && Name(op) == option ==> r == catalog(op, chunk)
  {
    SelectByName(option);
    match Select(option)
    case None => chunk
    case Some(ColorInversion) => Invert(chunk)
    case Some(op) => catalog(op, chunk)
  }

  /** An option that names none of the transforms returns the input unchanged,
      whatever the catalog does, and raises no error. This is the first clause of
      `ProcessChunk`'s contract, kept as a lemma of its own because it is the
      property the worker's fallback branch exists for. */
  lemma UnknownOptionIsIdentity(chunk: Image, option: string, catalog: (Op, Image) -> Image)
    requires forall op :: Name(op) != option
    ensures ProcessChunk(chunk, option, catalog) == chunk
  {
  }

  /** Selecting colour inversion twice restores the chunk. */
  lemma InversionTwiceRestores(chunk: Image, catalog: (Op, Image) -> Image)
    ensures ProcessChunk(ProcessChunk(chunk, "color_inversion", catalog), "color_inversion", catalog) == chunk
  {
    InvertTwice(chunk);
  }
}
