/** The pixel pipeline of tiffprocess.cpp: the display conversion
    (generateRgbMat), the blackness and mask stages, the white-ink ramp, the
    channel injector (updateExtraChannels) and the sequencing of those stages
    (genernateTiffFile).

    Matrices are values (CvMat.Mat); a stage that fills an output matrix
    row by row allocates an array, fills it in the source's nested loops and
    returns the filled bytes.  Each such method is proved against a function
    that gives the whole output in closed form, pixel by pixel. */
module TiffProcess {
  import opened Bytes
  import opened CvMat
  import opened TiffImage

  // ---------------------------------------------------------------------------
  // Arithmetic helpers
  // ---------------------------------------------------------------------------

  /** uint32_t arithmetic wraps modulo 2^32. */
  const U32_MODULUS: nat := 0x1_0000_0000

  /** clamp8: the int clamped into a byte. */
  function Clamp8(v: int): (b: Byte)
    ensures 0 <= v <= 255 ==> b == v
    ensures v < 0 ==> b == 0
    ensures v > 255 ==> b == 255
  {
    if v < 0 then 0 else if v > 255 then 255 else v
  }

  // Proof helper (index arithmetic): multiplication is monotone in its left factor.
  lemma MulLeft(a: nat, b: nat, c: nat)
    requires a <= b
    ensures a * c <= b * c
  {
  }

  /** Pixel i of a w-by-h image lies inside a buffer of w * h pixels of n bytes
      each, also when its index is first reduced modulo 2^32. */
  lemma PixelInside(i: nat, pixels: nat, n: nat)
    requires i < pixels
    ensures (i % U32_MODULUS) * n + n <= pixels * n
  {
    MulLeft(i % U32_MODULUS + 1, pixels, n);
  }

  /** Row y, column x is pixel y * w + x, and it lies inside the image. */
  lemma RowColumnInside(y: nat, x: nat, w: nat, h: nat)
    requires y < h && x < w
    ensures y * w + x < w * h
  {
    MulLeft(y + 1, h, w);
  }

  /** Proof helper (index arithmetic): row y of a w-wide image with h rows
      ends inside the image. */
  lemma RowEnd(y: nat, w: nat, h: nat)
    requires y < h
    ensures y * w + w <= w * h
  {
    MulLeft(y + 1, h, w);
  }

  // ---------------------------------------------------------------------------
  // generateRgbMat
  // ---------------------------------------------------------------------------

  /** The image generateRgbMat can convert: 8 bits, contiguous samples, a
      non-empty size, and RGB with at least 3 or CMYK with at least 4 samples. */
  predicate Convertible(meta: TiffMeta)
  {
    meta.bitsPerSample == 8 && meta.planarConfig == PLANARCONFIG_CONTIG &&
    meta.width > 0 && meta.height > 0 && meta.samplesPerPixel >= 3 &&
    (meta.photometric == PHOTOMETRIC_RGB ||
     (meta.photometric == PHOTOMETRIC_SEPARATED && meta.samplesPerPixel >= 4))
  }

  /** The status generateRgbMat returns, checks in the source's order. */
  function RgbStatus(meta: TiffMeta): (r: int)
    ensures r == 0 <==> Convertible(meta)
    ensures r == -1 <==> meta.bitsPerSample != 8
    ensures r == -2 <==> meta.bitsPerSample == 8 && meta.planarConfig != PLANARCONFIG_CONTIG
    ensures r == -3 <==> meta.bitsPerSample == 8 && meta.planarConfig == PLANARCONFIG_CONTIG &&
                         (meta.width == 0 || meta.height == 0 || meta.samplesPerPixel < 3)
    ensures r == -4 ==> meta.photometric == PHOTOMETRIC_SEPARATED && meta.samplesPerPixel == 3
    ensures r == -5 ==> meta.photometric != PHOTOMETRIC_RGB && meta.photometric != PHOTOMETRIC_SEPARATED
    ensures r in {0, -1, -2, -3, -4, -5}
  {
    if meta.bitsPerSample != 8 then -1
    else if meta.planarConfig != PLANARCONFIG_CONTIG then -2
    else if meta.width == 0 || meta.height == 0 || meta.samplesPerPixel < 3 then -3
    else if meta.photometric == PHOTOMETRIC_RGB then 0
    else if meta.photometric == PHOTOMETRIC_SEPARATED then (if meta.samplesPerPixel < 4 then -4 else 0)
    else -5
  }

  /** The raw buffer holds every pixel's samples, as the reader sizes it
      (scanline size times height). */
  predicate BufferHolds(meta: TiffMeta, buf: seq<Byte>)
  {
    meta.width * meta.height * meta.samplesPerPixel <= |buf|
  }

  /** Where the samples of pixel i start: the source computes the pixel index
      y * width + x in 32-bit unsigned arithmetic before scaling by the sample
      count. */
  function PixelOffset(meta: TiffMeta, i: nat): nat
  {
    (i % U32_MODULUS) * meta.samplesPerPixel
  }

  /** All samples of pixel i lie inside the buffer. */
  lemma SamplesInside(meta: TiffMeta, buf: seq<Byte>, i: nat)
    requires BufferHolds(meta, buf) && i < meta.width * meta.height
    ensures PixelOffset(meta, i) + meta.samplesPerPixel <= |buf|
  {
    PixelInside(i, meta.width * meta.height, meta.samplesPerPixel);
  }

  /** The three display bytes of pixel i, in OpenCV's B, G, R order: for RGB
      the first three samples reversed, for CMYK the fixed approximation
      255 - (ink + K) clamped into a byte. */
  function DisplayPixel(meta: TiffMeta, buf: seq<Byte>, i: nat): (px: seq<Byte>)
    requires Convertible(meta) && BufferHolds(meta, buf)
    requires i < meta.width * meta.height
    ensures |px| == 3
  {
    PixelInside(i, meta.width * meta.height, meta.samplesPerPixel);
    var o := PixelOffset(meta, i);
    if meta.photometric == PHOTOMETRIC_RGB then
      [buf[o + 2], buf[o + 1], buf[o]]
    else
      var c, m, y, k := buf[o] as int, buf[o + 1] as int, buf[o + 2] as int, buf[o + 3] as int;
      [Clamp8(255 - (y + k)), Clamp8(255 - (m + k)), Clamp8(255 - (c + k))]
  }

  lemma CmykPixelIs(meta: TiffMeta, buf: seq<Byte>, i: nat)
    requires Convertible(meta) && BufferHolds(meta, buf) && meta.photometric == PHOTOMETRIC_SEPARATED
    requires i < meta.width * meta.height
    ensures var o := PixelOffset(meta, i);
            o + 4 <= |buf| &&
            DisplayPixel(meta, buf, i) == [Clamp8(255 - (buf[o + 2] as int + buf[o + 3] as int)),
                                           Clamp8(255 - (buf[o + 1] as int + buf[o + 3] as int)),
                                           Clamp8(255 - (buf[o] as int + buf[o + 3] as int))]
  {
    SamplesInside(meta, buf, i);
  }

  /** The converted image: each pixel's display bytes, row after row. */
  function DisplayImage(meta: TiffMeta, buf: seq<Byte>): (img: seq<Byte>)
    requires Convertible(meta) && BufferHolds(meta, buf)
    ensures |img| == 3 * (meta.width * meta.height)
  {
    var n := meta.width * meta.height;
    seq<Byte>(3 * n, k requires 0 <= k < 3 * n => DisplayPixel(meta, buf, k / 3)[k % 3])
  }

  /** Bytes 3i, 3i + 1 and 3i + 2 of the converted image are pixel i's B, G
      and R. */
  lemma DisplayImageAt(meta: TiffMeta, buf: seq<Byte>, i: nat)
    requires Convertible(meta) && BufferHolds(meta, buf)
    requires i < meta.width * meta.height
    ensures var img, px := DisplayImage(meta, buf), DisplayPixel(meta, buf, i);
            3 * i + 3 <= |img| && img[3 * i] == px[0] && img[3 * i + 1] == px[1] && img[3 * i + 2] == px[2]
  {
    var img := DisplayImage(meta, buf);
    assert (3 * i) / 3 == i && (3 * i + 1) / 3 == i && (3 * i + 2) / 3 == i;
  }

  /** An RGB pixel's display bytes are its first three samples reversed, so
      reading them back in reverse gives the samples; the samples after the
      third (extra channels) are never read. */
  lemma RgbDisplayIsSwap(meta: TiffMeta, buf: seq<Byte>, i: nat)
    requires Convertible(meta) && BufferHolds(meta, buf) && meta.photometric == PHOTOMETRIC_RGB
    requires i < meta.width * meta.height
    ensures var o := PixelOffset(meta, i);
            o + 3 <= |buf| && DisplayPixel(meta, buf, i) == [buf[o + 2], buf[o + 1], buf[o]]
  {
    PixelInside(i, meta.width * meta.height, meta.samplesPerPixel);
  }

  /** The first three samples of pixel i. */
  function ColorSamples(meta: TiffMeta, buf: seq<Byte>, i: nat): seq<Byte>
    requires Convertible(meta) && BufferHolds(meta, buf)
    requires i < meta.width * meta.height
  {
    PixelInside(i, meta.width * meta.height, meta.samplesPerPixel);
    buf[PixelOffset(meta, i) .. PixelOffset(meta, i) + 3]
  }

  /** An RGB pixel's display bytes are its colour samples reversed. */
  lemma RgbPixelFromSamples(meta: TiffMeta, buf: seq<Byte>, i: nat)
    requires Convertible(meta) && BufferHolds(meta, buf) && meta.photometric == PHOTOMETRIC_RGB
    requires i < meta.width * meta.height
    ensures var a := ColorSamples(meta, buf, i);
            DisplayPixel(meta, buf, i) == [a[2], a[1], a[0]]
  {
  }

  /** Two RGB buffers that agree on the first three samples of every pixel
      display the same image: extra channels do not show. */
  lemma RgbDisplayIgnoresExtras(meta: TiffMeta, buf: seq<Byte>, buf': seq<Byte>)
    requires Convertible(meta) && BufferHolds(meta, buf) && BufferHolds(meta, buf')
    requires meta.photometric == PHOTOMETRIC_RGB
    requires forall i :: 0 <= i < meta.width * meta.height ==> ColorSamples(meta, buf, i) == ColorSamples(meta, buf', i)
    ensures DisplayImage(meta, buf) == DisplayImage(meta, buf')
  {
    var n := meta.width * meta.height;
    var x, y := DisplayImage(meta, buf), DisplayImage(meta, buf');
    forall k | 0 <= k < 3 * n ensures x[k] == y[k] {
      var i := k / 3;
      RgbPixelFromSamples(meta, buf, i);
      RgbPixelFromSamples(meta, buf', i);
      DisplayImageAt(meta, buf, i);
      DisplayImageAt(meta, buf', i);
    }
  }

  /** A CMYK channel is 255 - (ink + K) exactly while ink + K stays within 255,
      and 0 beyond: full K gives black whatever the inks, no ink at all gives
      white. */
  lemma CmykChannel(ink: Byte, k: Byte)
    ensures ink + k <= 255 ==> Clamp8(255 - (ink + k)) == 255 - ink - k
    ensures ink + k > 255 ==> Clamp8(255 - (ink + k)) == 0
    ensures k == 255 ==> Clamp8(255 - (ink + k)) == 0
    ensures ink == 0 && k == 0 ==> Clamp8(255 - (ink + k)) == 255
  {
  }

  /** One pixel of the RGB loop nest: R, G, B read at the pixel's offset and written as B, G, R. */
  method ConvertRgbPixel(meta: TiffMeta, src: seq<Byte>, dst: array<Byte>, i: nat)
    requires Convertible(meta) && meta.photometric == PHOTOMETRIC_RGB
    requires BufferHolds(meta, src)
    requires i < meta.width * meta.height && dst.Length == 3 * (meta.width * meta.height)
    modifies dst
    ensures var img := DisplayImage(meta, src);
            forall k :: 3 * i <= k < 3 * i + 3 ==> dst[k] == img[k]
    ensures forall k :: 0 <= k < dst.Length && !(3 * i <= k < 3 * i + 3) ==> dst[k] == old(dst[k])
  {
    SamplesInside(meta, src, i);
    var p := PixelOffset(meta, i);
    var d := 3 * i;
    DisplayImageAt(meta, src, i);
    RgbDisplayIsSwap(meta, src, i);
    dst[d] := src[p + 2];
    dst[d + 1] := src[p + 1];
    dst[d + 2] := src[p];
    PixelWritten(dst, d, DisplayImage(meta, src));
  }

  /** Row y of the RGB loop nest, whose first pixel is pixel start; no other byte changes. */
  method ConvertRgbRow(meta: TiffMeta, src: seq<Byte>, dst: array<Byte>, start: nat)
    requires Convertible(meta) && meta.photometric == PHOTOMETRIC_RGB
    requires BufferHolds(meta, src)
    requires start + meta.width <= meta.width * meta.height && dst.Length == 3 * (meta.width * meta.height)
    modifies dst
    ensures forall k :: 3 * start <= k < 3 * (start + meta.width) ==> dst[k] == DisplayImage(meta, src)[k]
    ensures forall k :: 0 <= k < 3 * start ==> dst[k] == old(dst[k])
  {
    var width: nat := meta.width;
    ghost var img := DisplayImage(meta, src);
    var x := 0;
    while x < width
      invariant x <= width
      invariant forall k :: 3 * start <= k < 3 * (start + x) ==> dst[k] == img[k]
      invariant forall k :: 0 <= k < 3 * start ==> dst[k] == old(dst[k])
    {
      ConvertRgbPixel(meta, src, dst, start + x);
      x := x + 1;
    }
  }

  /** The RGB loop nest of generateRgbMat: every pixel's first three samples, reversed into B, G, R. */
  method ConvertRgbRows(meta: TiffMeta, src: seq<Byte>, dst: array<Byte>)
    requires Convertible(meta) && meta.photometric == PHOTOMETRIC_RGB
    requires BufferHolds(meta, src)
    requires dst.Length == 3 * (meta.width * meta.height)
    modifies dst
    ensures dst[..] == DisplayImage(meta, src)
  {
    var width: nat := meta.width;
    var height: nat := meta.height;
    ghost var img := DisplayImage(meta, src);
    var y := 0;
    while y < height
      invariant y <= height && y * width <= width * height
      invariant forall k :: 0 <= k < 3 * (y * width) ==> dst[k] == img[k]
    {
      RowEnd(y, width, height);
      ConvertRgbRow(meta, src, dst, y * width);
      assert (y + 1) * width == y * width + width;
      y := y + 1;
    }
    assert y * width == width * height;
    assert dst[..] == img;
  }

  /** One pixel of the CMYK loop nest: the fixed approximation of R, G and B from C, M, Y and K, written as B, G, R. */
  method ConvertCmykPixel(meta: TiffMeta, src: seq<Byte>, dst: array<Byte>, i: nat)
    requires Convertible(meta) && meta.photometric == PHOTOMETRIC_SEPARATED
    requires BufferHolds(meta, src)
    requires i < meta.width * meta.height && dst.Length == 3 * (meta.width * meta.height)
    modifies dst
    ensures var img := DisplayImage(meta, src);
            forall k :: 3 * i <= k < 3 * i + 3 ==> dst[k] == img[k]
    ensures forall k :: 0 <= k < dst.Length && !(3 * i <= k < 3 * i + 3) ==> dst[k] == old(dst[k])
  {
    SamplesInside(meta, src, i);
    var p := PixelOffset(meta, i);
    var d := 3 * i;
    DisplayImageAt(meta, src, i);
    var c, m, y, k := src[p] as int, src[p + 1] as int, src[p + 2] as int, src[p + 3] as int;
    var r, g, b := Clamp8(255 - (c + k)), Clamp8(255 - (m + k)), Clamp8(255 - (y + k));
    CmykPixelIs(meta, src, i);
    dst[d] := b;
    dst[d + 1] := g;
    dst[d + 2] := r;
    PixelWritten(dst, d, DisplayImage(meta, src));
  }

  /** Proof helper: three bytes that each match the image match it over
      their range. */
  lemma PixelWritten(dst: array<Byte>, d: nat, img: seq<Byte>)
    requires d + 3 <= dst.Length && d + 3 <= |img|
    requires dst[d] == img[d] && dst[d + 1] == img[d + 1] && dst[d + 2] == img[d + 2]
    ensures forall k :: d <= k < d + 3 ==> dst[k] == img[k]
  {
  }

  /** Row y of the CMYK loop nest, whose first pixel is pixel start; no other byte changes. */
  method ConvertCmykRow(meta: TiffMeta, src: seq<Byte>, dst: array<Byte>, start: nat)
    requires Convertible(meta) && meta.photometric == PHOTOMETRIC_SEPARATED
    requires BufferHolds(meta, src)
    requires start + meta.width <= meta.width * meta.height && dst.Length == 3 * (meta.width * meta.height)
    modifies dst
    ensures forall k :: 3 * start <= k < 3 * (start + meta.width) ==> dst[k] == DisplayImage(meta, src)[k]
    ensures forall k :: 0 <= k < 3 * start ==> dst[k] == old(dst[k])
  {
    var width: nat := meta.width;
    ghost var img := DisplayImage(meta, src);
    var x := 0;
    while x < width
      invariant x <= width
      invariant forall k :: 3 * start <= k < 3 * (start + x) ==> dst[k] == img[k]
      invariant forall k :: 0 <= k < 3 * start ==> dst[k] == old(dst[k])
    {
      ConvertCmykPixel(meta, src, dst, start + x);
      x := x + 1;
    }
  }

  /** The CMYK loop nest of generateRgbMat: every pixel's fixed CMYK approximation in B, G, R order. */
  method ConvertCmykRows(meta: TiffMeta, src: seq<Byte>, dst: array<Byte>)
    requires Convertible(meta) && meta.photometric == PHOTOMETRIC_SEPARATED
    requires BufferHolds(meta, src)
    requires dst.Length == 3 * (meta.width * meta.height)
    modifies dst
    ensures dst[..] == DisplayImage(meta, src)
  {
    var width: nat := meta.width;
    var height: nat := meta.height;
    ghost var img := DisplayImage(meta, src);
    var y := 0;
    while y < height
      invariant y <= height && y * width <= width * height
      invariant forall k :: 0 <= k < 3 * (y * width) ==> dst[k] == img[k]
    {
      RowEnd(y, width, height);
      ConvertCmykRow(meta, src, dst, y * width);
      assert (y + 1) * width == y * width + width;
      y := y + 1;
    }
    assert y * width == width * height;
    assert dst[..] == img;
  }

  /** cv::Mat::create: a matrix that already has the requested shape and type
      is kept as it is; otherwise a new one is allocated, whose bytes OpenCV
      leaves uninitialised (zero here). */
  function CreateMat(m: Mat, rows: nat, cols: nat, kind: MatType): (r: Mat)
    ensures r.rows == rows && r.cols == cols && r.kind == kind && r.Valid()
    ensures m.rows == rows && m.cols == cols && m.kind == kind && m.Valid() ==> r == m
  {
    if m.rows == rows && m.cols == cols && m.kind == kind && m.Valid() then m
    else Mat(rows, cols, kind, seq<Byte>(rows * cols * kind.Channels(), _ => 0))
  }

  /** generateRgbMat(image, outRgb): the status, and for status 0 the
      height-by-width CV_8UC3 display image.  The output matrix is left as it
      was passed in when a check before its creation fails (-1, -2, -3), and
      is only created, with unspecified bytes, when the photometric check
      after it fails (-4, -5). */
  method GenerateRgbMat(image: TiffImage, outRgb: Mat) returns (status: int, out: Mat)
    requires RgbStatus(image.meta) == 0 ==> BufferHolds(image.meta, image.buffer[..])
    ensures status == RgbStatus(image.meta)
    ensures status == 0 ==>
      out == Mat(image.meta.height, image.meta.width, U8C3, DisplayImage(image.meta, image.buffer[..]))
    ensures status in {-4, -5} ==> out == CreateMat(outRgb, image.meta.height, image.meta.width, U8C3)
    ensures status in {-1, -2, -3} ==> out == outRgb
  {
    var meta := image.meta;
    ghost var buf := image.buffer[..];
    out := outRgb;
    if meta.bitsPerSample != 8 {
      return -1, out;
    }
    if meta.planarConfig != PLANARCONFIG_CONTIG {
      return -2, out;
    }
    var width: nat := meta.width;
    var height: nat := meta.height;
    var spp: nat := meta.samplesPerPixel;
    if width == 0 || height == 0 || spp < 3 {
      return -3, out;
    }
    out := CreateMat(outRgb, height, width, U8C3);
    if meta.photometric != PHOTOMETRIC_RGB && meta.photometric != PHOTOMETRIC_SEPARATED {
      return -5, out;
    }
    if meta.photometric == PHOTOMETRIC_SEPARATED && spp < 4 {
      return -4, out;
    }
    var dst := new Byte[3 * (width * height)];
    var src := image.buffer[..];
    if meta.photometric == PHOTOMETRIC_RGB {
      ConvertRgbRows(meta, src, dst);
    } else {
      ConvertCmykRows(meta, src, dst);
    }
    return 0, Mat(height, width, U8C3, dst[..]);
  }

  // ---------------------------------------------------------------------------
  // calcBlackness
  // ---------------------------------------------------------------------------

  /** The blackness measures the pipeline offers; any other enumerator value
      reaches the switch's default. */
  datatype BlacknessMethod = Gray | DarkNeutral | MaxChannel | Unrecognized(code: int)

  /** The floating-point scores (GRAY and DARK_NEUTRAL) of a pixel's three
      bytes, which this model takes as given. */
  type FloatScore = (BlacknessMethod, Byte, Byte, Byte) -> Byte

  /** std::max of three bytes. */
  function Max3(a: Byte, b: Byte, c: Byte): (m: Byte)
    ensures m >= a && m >= b && m >= c
    ensures m == a || m == b || m == c
  {
    if a >= b && a >= c then a else if b >= c then b else c
  }

  /** The blackness of one pixel: MAX_CHANNEL approximates K as 255 minus the
      brightest channel. */
  function Blackness(measure: BlacknessMethod, floatScore: FloatScore, c0: Byte, c1: Byte, c2: Byte): Byte
    requires !measure.Unrecognized?
  {
    if measure == MaxChannel then 255 - Max3(c0, c1, c2) else floatScore(measure, c0, c1, c2)
  }

  /** The status calcBlackness returns. */
  function BlacknessStatus(rgb: Mat, measure: BlacknessMethod): (r: int)
    ensures r == -1 <==> rgb.Empty() || rgb.kind != U8C3
    ensures r == -2 <==> !rgb.Empty() && rgb.kind == U8C3 && measure.Unrecognized?
    ensures r == 0 <==> !rgb.Empty() && rgb.kind == U8C3 && !measure.Unrecognized?
  {
    if rgb.Empty() || rgb.kind != U8C3 then -1
    else if measure.Unrecognized? then -2
    else 0
  }

  // Proof helper (index arithmetic): the three bytes of pixel i lie inside n pixels.
  lemma PixelBytesInside(i: nat, n: nat, c: nat)
    requires i < n && c < 3
    ensures 3 * i + c < n * 3
  {
  }

  /** The blackness image: one byte per pixel of the three-channel input. */
  function BlacknessImage(rgb: Mat, measure: BlacknessMethod, floatScore: FloatScore): (img: seq<Byte>)
    requires rgb.Valid() && rgb.kind == U8C3 && !measure.Unrecognized?
    ensures |img| == rgb.rows * rgb.cols
  {
    var n := rgb.rows * rgb.cols;
    seq<Byte>(n, i requires 0 <= i < n =>
      PixelBytesInside(i, n, 2);
      Blackness(measure, floatScore, rgb.data[3 * i], rgb.data[3 * i + 1], rgb.data[3 * i + 2]))
  }

  /** MAX_CHANNEL blackness does not depend on the order of the channels (so it
      does not matter that the source names the B, G, R bytes R, G, B); it is 0
      exactly when some channel is full and 255 exactly when all are 0, and it
      never exceeds 255 minus any one channel. */
  lemma MaxChannelBlackness(fs: FloatScore, c0: Byte, c1: Byte, c2: Byte)
    ensures Blackness(MaxChannel, fs, c0, c1, c2) == Blackness(MaxChannel, fs, c2, c1, c0)
                                                 == Blackness(MaxChannel, fs, c1, c2, c0)
    ensures Blackness(MaxChannel, fs, c0, c1, c2) == 0 <==> c0 == 255 || c1 == 255 || c2 == 255
    ensures Blackness(MaxChannel, fs, c0, c1, c2) == 255 <==> c0 == 0 && c1 == 0 && c2 == 0
    ensures forall c :: c in [c0, c1, c2] ==> Blackness(MaxChannel, fs, c0, c1, c2) <= 255 - c
  {
  }

  /** The switch of calcBlackness for one pixel: false for the default case. */
  method PixelBlackness(measure: BlacknessMethod, floatScore: FloatScore, r: Byte, g: Byte, b: Byte)
    returns (known: bool, value: Byte)
    ensures known <==> !measure.Unrecognized?
    ensures known ==> value == Blackness(measure, floatScore, r, g, b)
  {
    known, value := true, 0;
    match measure {
      case Gray =>
        value := floatScore(Gray, r, g, b);
      case DarkNeutral =>
        value := floatScore(DarkNeutral, r, g, b);
      case MaxChannel =>
        var maxv := Max3(r, g, b);
        value := 255 - maxv;
      case Unrecognized(_) =>
        known := false;
    }
  }

  /** Row y of calcBlackness: false at the row's first pixel when the method
      is unrecognised, else the row's blackness; no other byte changes. */
  method BlacknessRow(rgb: Mat, measure: BlacknessMethod, floatScore: FloatScore, dst: array<Byte>, y: nat)
    returns (known: bool)
    requires rgb.Valid() && rgb.kind == U8C3 && y < rgb.rows
    requires dst.Length == rgb.rows * rgb.cols && y * rgb.cols + rgb.cols <= dst.Length
    modifies dst
    ensures known <==> !measure.Unrecognized?
    ensures known ==> forall k :: y * rgb.cols <= k < y * rgb.cols + rgb.cols ==>
                        dst[k] == BlacknessImage(rgb, measure, floatScore)[k]
    ensures forall k :: 0 <= k < dst.Length && !(y * rgb.cols <= k < y * rgb.cols + rgb.cols) ==> dst[k] == old(dst[k])
  {
    var n, cols := rgb.rows * rgb.cols, rgb.cols;
    var start := y * cols;
    var x := 0;
    while x < cols
      invariant x <= cols && n == dst.Length
      invariant measure.Unrecognized? ==> x == 0
      invariant !measure.Unrecognized? ==> forall k :: start <= k < start + x ==> dst[k] == BlacknessImage(rgb, measure, floatScore)[k]
      invariant forall k :: 0 <= k < n && !(start <= k < start + x) ==> dst[k] == old(dst[k])
    {
      var d := start + x;
      PixelBytesInside(d, n, 2);
      var r, g, b := rgb.data[3 * d], rgb.data[3 * d + 1], rgb.data[3 * d + 2];
      var ok, value := PixelBlackness(measure, floatScore, r, g, b);
      if !ok {
        return false;
      }
      assert value == BlacknessImage(rgb, measure, floatScore)[d];
      dst[d] := value;
      x := x + 1;
    }
    return !measure.Unrecognized?;
  }

  /** The loop nest of calcBlackness over a non-empty three-channel image:
      false at the first pixel when the method is unrecognised, else every
      pixel's blackness written in row order. */
  method FillBlackness(rgb: Mat, measure: BlacknessMethod, floatScore: FloatScore, dst: array<Byte>)
    returns (known: bool)
    requires rgb.Valid() && rgb.kind == U8C3 && !rgb.Empty()
    requires dst.Length == rgb.rows * rgb.cols
    modifies dst
    ensures known <==> !measure.Unrecognized?
    ensures known ==> dst[..] == BlacknessImage(rgb, measure, floatScore)
  {
    var rows, cols := rgb.rows, rgb.cols;
    MulLeft(1, rows, cols);
    known := BlacknessRow(rgb, measure, floatScore, dst, 0);
    if !known {
      return;
    }
    ghost var img := BlacknessImage(rgb, measure, floatScore);
    var y := 1;
    while y < rows
      invariant y <= rows && y * cols <= rows * cols
      invariant forall k :: 0 <= k < y * cols ==> dst[k] == img[k]
    {
      MulLeft(y + 1, rows, cols);
      var ok := BlacknessRow(rgb, measure, floatScore, dst, y);
      assert (y + 1) * cols == y * cols + cols;
      y := y + 1;
    }
    assert rows * cols == dst.Length;
    assert dst[..] == img;
  }

  /** calcBlackness: -1 for an empty or non-three-channel input, leaving the
      output as it was; -2 at the first pixel for an unrecognised method, after
      the output has been created with unspecified bytes; else each pixel's
      blackness. */
  method CalcBlackness(rgb: Mat, measure: BlacknessMethod, floatScore: FloatScore, blackness: Mat)
    returns (status: int, out: Mat)
    requires rgb.Valid()
    ensures status == BlacknessStatus(rgb, measure)
    ensures status == 0 ==> out == Mat(rgb.rows, rgb.cols, U8C1, BlacknessImage(rgb, measure, floatScore))
    ensures status == -2 ==> out == CreateMat(blackness, rgb.rows, rgb.cols, U8C1)
    ensures status == -1 ==> out == blackness
  {
    if rgb.Empty() || rgb.kind != U8C3 {
      return -1, blackness;
    }
    var dst := new Byte[rgb.rows * rgb.cols];
    var known := FillBlackness(rgb, measure, floatScore, dst);
    if !known {
      return -2, CreateMat(blackness, rgb.rows, rgb.cols, U8C1);
    }
    return 0, Mat(rgb.rows, rgb.cols, U8C1, dst[..]);
  }

  // ---------------------------------------------------------------------------
  // removeBlack
  // ---------------------------------------------------------------------------

  /** cv::threshold(blackness, output, thresh, 255, THRESH_BINARY_INV) on an
      8-bit single-channel image: 255 where the value does not exceed the
      threshold, 0 where it does.  OpenCV's own shortcuts for an integer
      threshold below 0 (all 0) or at or above 255 (all 255) agree with this
      rule on bytes. */
  function ThresholdInv(m: Mat, thresh: int): (out: Mat)
  {
    Mat(m.rows, m.cols, m.kind, seq<Byte>(|m.data|, i requires 0 <= i < |m.data| => if m.data[i] <= thresh then 255 else 0))
  }

  /** The status removeBlack and removeSmallComponents both return: each
      refuses an empty or non-single-channel input with the same guard. */
  function MaskStatus(m: Mat): (r: int)
    ensures r == -1 <==> m.Empty() || m.kind != U8C1
    ensures r == 0 <==> !m.Empty() && m.kind == U8C1
  {
    if m.Empty() || m.kind != U8C1 then -1 else 0
  }

  /** removeBlack(blackness, thresh, output): -1 for an empty or
      non-single-channel input, leaving output as it was; else the inverted
      binary threshold of the input, of the same size and type. */
  method RemoveBlack(blackness: Mat, thresh: int, output: Mat) returns (status: int, out: Mat)
    requires blackness.Valid()
    ensures status == MaskStatus(blackness)
    ensures status == 0 ==> out == ThresholdInv(blackness, thresh) && out.Valid() && out.SameSize(blackness) && out.kind == U8C1
    ensures status == 0 ==> forall i :: 0 <= i < |out.data| ==>
                              (out.data[i] == 255 <==> blackness.data[i] <= thresh) &&
                              (out.data[i] == 0 <==> blackness.data[i] > thresh)
    ensures status != 0 ==> out == output
  {
    if blackness.Empty() || blackness.kind != U8C1 {
      return -1, output;
    }
    return 0, ThresholdInv(blackness, thresh);
  }

  /** The thresholded mask is binary, and raising the threshold never turns a
      255 into a 0. */
  lemma ThresholdInvMonotone(m: Mat, t1: int, t2: int)
    requires t1 <= t2
    ensures |ThresholdInv(m, t1).data| == |ThresholdInv(m, t2).data| == |m.data|
    ensures forall i :: 0 <= i < |m.data| ==> ThresholdInv(m, t1).data[i] in {0, 255}
    ensures forall i :: 0 <= i < |m.data| ==> ThresholdInv(m, t1).data[i] <= ThresholdInv(m, t2).data[i]
  {
  }

  /** A threshold below every byte clears the mask; one at or above 255 fills
      it. */
  lemma ThresholdInvExtremes(m: Mat, thresh: int)
    ensures thresh < 0 ==> forall i :: 0 <= i < |m.data| ==> ThresholdInv(m, thresh).data[i] == 0
    ensures thresh >= 255 ==> forall i :: 0 <= i < |m.data| ==> ThresholdInv(m, thresh).data[i] == 255
  {
  }

  // ---------------------------------------------------------------------------
  // removeSmallComponents
  // ---------------------------------------------------------------------------

  /** What cv::connectedComponentsWithStats reports about a mask: a label for
      every pixel (row after row, 0 for the background) and the area of every
      label.  How pixels are grouped is OpenCV's and is not modelled. */
  datatype Labelling = Labelling(labels: seq<int>, areas: seq<int>)

  /** A labelling of the mask: one label per pixel, every label in range, the
      background label exactly on the zero pixels, and every foreground label
      that occurs covering at least its own pixel. */
  predicate IsLabelling(input: Mat, lab: Labelling)
    requires input.Valid() && input.kind == U8C1
  {
    |lab.labels| == |input.data| &&
    (forall i :: 0 <= i < |lab.labels| ==> 0 <= lab.labels[i] < |lab.areas|) &&
    (forall i :: 0 <= i < |lab.labels| ==> (lab.labels[i] == 0 <==> input.data[i] == 0)) &&
    (forall i :: 0 <= i < |lab.labels| && lab.labels[i] > 0 ==> lab.areas[lab.labels[i]] >= 1)
  }

  /** The filter's verdict on pixel i: 255 when its label is a foreground
      label whose area reaches minArea, else 0. */
  function KeepPixel(lab: Labelling, minArea: int, i: nat): Byte
    requires i < |lab.labels| && 0 <= lab.labels[i] < |lab.areas|
  {
    if lab.labels[i] > 0 && lab.areas[lab.labels[i]] >= minArea then 255 else 0
  }

  /** The filtered mask. */
  function ComponentsFilter(input: Mat, minArea: int, lab: Labelling): (out: Mat)
    requires input.Valid() && input.kind == U8C1 && IsLabelling(input, lab)
    ensures out.Valid() && out.SameSize(input) && out.kind == U8C1
  {
    Mat(input.rows, input.cols, U8C1, seq<Byte>(|input.data|, i requires 0 <= i < |input.data| => KeepPixel(lab, minArea, i)))
  }

  /** One row of removeSmallComponents' loop nest, the one starting at start, over an output still
      zero there: 255 where the filter keeps the pixel; no other byte changes. */
  method ComponentsRow(input: Mat, minArea: int, lab: Labelling, dst: array<Byte>, start: nat)
    requires input.Valid() && input.kind == U8C1 && IsLabelling(input, lab)
    requires dst.Length == |input.data| && start + input.cols <= dst.Length
    requires forall k :: start <= k < start + input.cols ==> dst[k] == 0
    modifies dst
    ensures forall k :: start <= k < start + input.cols ==>
              dst[k] == ComponentsFilter(input, minArea, lab).data[k]
    ensures forall k :: 0 <= k < dst.Length && !(start <= k < start + input.cols) ==> dst[k] == old(dst[k])
  {
    var cols := input.cols;
    ghost var img := ComponentsFilter(input, minArea, lab).data;
    var x := 0;
    while x < cols
      invariant x <= cols
      invariant forall k :: start <= k < start + x ==> dst[k] == img[k]
      invariant forall k :: 0 <= k < dst.Length && !(start <= k < start + x) ==> dst[k] == old(dst[k])
    {
      var lbl := lab.labels[start + x];
      assert img[start + x] == KeepPixel(lab, minArea, start + x);
      if lbl > 0 && lab.areas[lbl] >= minArea {
        dst[start + x] := 255;
      }
      x := x + 1;
    }
  }

  /** removeSmallComponents: -1 for an empty or non-8-bit single-channel
      input; otherwise a fresh all-zero image in which every pixel of a
      component of at least minArea pixels is set to 255, row by row. */
  method RemoveSmallComponents(input: Mat, minArea: int, lab: Labelling, output: Mat) returns (status: int, out: Mat)
    requires input.Valid()
    requires !input.Empty() && input.kind == U8C1 ==> IsLabelling(input, lab)
    ensures status == MaskStatus(input)
    ensures status == 0 ==> out == ComponentsFilter(input, minArea, lab)
    ensures status != 0 ==> out == output
  {
    if input.Empty() || input.kind != U8C1 {
      return -1, output;
    }
    var rows, cols := input.rows, input.cols;
    var dst := new Byte[|input.data|](_ => 0);
    ghost var img := ComponentsFilter(input, minArea, lab).data;
    var y, start := 0, 0;
    while y < rows
      invariant y <= rows && start == y * cols && start <= dst.Length
      invariant forall k :: 0 <= k < start ==> dst[k] == img[k]
      invariant forall k :: start <= k < dst.Length ==> dst[k] == 0
    {
      MulLeft(y + 1, rows, cols);
      ComponentsRow(input, minArea, lab, dst, start);
      y, start := y + 1, start + cols;
    }
    assert dst[..] == img;
    return 0, Mat(rows, cols, U8C1, dst[..]);
  }

  /** The filter only keeps foreground: a pixel that is 0 in the input is 0 in
      the output. */
  lemma ComponentsKeepOnlyForeground(input: Mat, minArea: int, lab: Labelling)
    requires input.Valid() && input.kind == U8C1 && IsLabelling(input, lab)
    ensures forall i :: 0 <= i < |input.data| && input.data[i] == 0 ==>
              ComponentsFilter(input, minArea, lab).data[i] == 0
  {
  }

  /** With minArea at most 1 nothing is too small: the output is the input
      made binary (255 wherever the input is non-zero). */
  lemma ComponentsSmallMinArea(input: Mat, minArea: int, lab: Labelling)
    requires input.Valid() && input.kind == U8C1 && IsLabelling(input, lab) && minArea <= 1
    ensures forall i :: 0 <= i < |input.data| ==>
              ComponentsFilter(input, minArea, lab).data[i] == (if input.data[i] == 0 then 0 else 255)
  {
  }

  /** Raising minArea only removes pixels. */
  lemma ComponentsMonotone(input: Mat, a1: int, a2: int, lab: Labelling)
    requires input.Valid() && input.kind == U8C1 && IsLabelling(input, lab) && a1 <= a2
    ensures forall i :: 0 <= i < |input.data| ==>
              ComponentsFilter(input, a2, lab).data[i] <= ComponentsFilter(input, a1, lab).data[i]
  {
  }

  // ---------------------------------------------------------------------------
  // generateWhiteCompensation
  // ---------------------------------------------------------------------------

  /** The status generateWhiteCompensation returns, checks in the source's
      order. */
  function WhiteStatus(blackness: Mat, transparent: Mat, thresh: int): (r: int)
    ensures r == -1 <==> blackness.Empty() || transparent.Empty()
    ensures r == -2 <==> !blackness.Empty() && !transparent.Empty() && (blackness.kind != U8C1 || transparent.kind != U8C1)
    ensures r == -3 ==> !blackness.SameSize(transparent)
    ensures r == -4 ==> thresh <= 0 || thresh > 255
    ensures r == 0 <==> !blackness.Empty() && !transparent.Empty() && blackness.kind == U8C1 && transparent.kind == U8C1 &&
                        blackness.SameSize(transparent) && 0 < thresh <= 255
  {
    if blackness.Empty() || transparent.Empty() then -1
    else if blackness.kind != U8C1 || transparent.kind != U8C1 then -2
    else if !blackness.SameSize(transparent) then -3
    else if thresh <= 0 || thresh > 255 then -4
    else 0
  }

  /** White ink for one pixel: none where the mask is transparent or the
      blackness reaches the threshold, else the ramp (thresh - b) * 255 /
      thresh (truncating; both operands are positive) clamped into a byte. */
  function WhiteValue(t: Byte, b: Byte, thresh: int): Byte
    requires 0 < thresh <= 255
  {
    if t == 0 then 0
    else if b >= thresh then 0
    else Clamp8((thresh - b) * 255 / thresh)
  }

  /** The white-compensation image. */
  function WhiteImage(blackness: Mat, transparent: Mat, thresh: int): (out: Mat)
    requires blackness.Valid() && transparent.Valid() && WhiteStatus(blackness, transparent, thresh) == 0
    ensures out.Valid() && out.SameSize(blackness) && out.kind == U8C1
  {
    Mat(blackness.rows, blackness.cols, U8C1,
        seq<Byte>(|blackness.data|, i requires 0 <= i < |blackness.data| => WhiteValue(transparent.data[i], blackness.data[i], thresh)))
  }

  /** The ramp never needs its clamp: where ink is laid it lies in 1..255,
      full white (255) at blackness 0. */
  lemma WhiteRampRange(b: Byte, thresh: int)
    requires 0 < thresh <= 255 && b < thresh
    ensures 1 <= (thresh - b) * 255 / thresh <= 255
    ensures WhiteValue(1, b, thresh) == (thresh - b) * 255 / thresh
    ensures b == 0 ==> WhiteValue(1, b, thresh) == 255
  {
    var a: nat := thresh - b;
    var q: nat := a * 255;
    MulLeft(1, a, 255);
    MulLeft(a, thresh, 255);
    assert 1 * thresh <= q <= 255 * thresh;
    DivBounds(q, thresh, 1, 255);
    if b == 0 {
      assert q == 255 * thresh;
      DivBounds(q, thresh, 255, 255);
    }
  }

  lemma DivBounds(q: nat, d: nat, lo: nat, hi: nat)
    requires 0 < d && lo * d <= q <= hi * d
    ensures lo <= q / d <= hi
  {
    var r := q / d;
    assert q == r * d + q % d;
    if r < lo {
      MulLeft(r + 1, lo, d);
      assert false;
    }
    if r > hi {
      assert false;
    }
  }

  /** The value is 0 exactly where no ink is laid and non-zero elsewhere. */
  lemma WhiteValueZero(t: Byte, b: Byte, thresh: int)
    requires 0 < thresh <= 255
    ensures WhiteValue(t, b, thresh) == 0 <==> t == 0 || b >= thresh
  {
    if t != 0 && b < thresh {
      WhiteRampRange(b, thresh);
    }
  }

  /** Darker pixels get no more white: the ramp does not increase with the
      blackness. */
  lemma WhiteValueAntitone(t: Byte, b1: Byte, b2: Byte, thresh: int)
    requires 0 < thresh <= 255 && b1 <= b2
    ensures WhiteValue(t, b2, thresh) <= WhiteValue(t, b1, thresh)
  {
    if t != 0 && b2 < thresh {
      WhiteRampRange(b1, thresh);
      WhiteRampRange(b2, thresh);
      DivMonotone((thresh - b2) * 255, (thresh - b1) * 255, thresh);
    }
  }

  lemma DivMonotone(a: nat, b: nat, d: nat)
    requires a <= b && 0 < d
    ensures a / d <= b / d
  {
    var p, q := a / d, b / d;
    assert a == p * d + a % d && b == q * d + b % d;
    if p > q {
      MulLeft(q + 1, p, d);
      assert false;
    }
  }

  /** Wherever ink is laid, the white value is the truncated ramp: the
      largest byte v with v * thresh <= (thresh - b) * 255. */
  lemma WhiteValueIsRamp(t: Byte, b: Byte, thresh: int)
    requires 0 < thresh <= 255 && t != 0 && b < thresh
    ensures WhiteValue(t, b, thresh) == (thresh - b) * 255 / thresh
    ensures WhiteValue(t, b, thresh) as int * thresh <= (thresh - b) * 255 < (WhiteValue(t, b, thresh) as int + 1) * thresh
  {
    WhiteRampRange(b, thresh);
    var q: nat := (thresh - b) * 255;
    var v := q / thresh;
    assert WhiteValue(t, b, thresh) == v;
    assert q == v * thresh + q % thresh;
  }

  /** Row y of generateWhiteCompensation's loop nest; no other byte changes. */
  method WhiteRow(blackness: Mat, transparent: Mat, thresh: int, dst: array<Byte>, y: nat)
    requires blackness.Valid() && transparent.Valid() && WhiteStatus(blackness, transparent, thresh) == 0
    requires y < blackness.rows && dst.Length == blackness.rows * blackness.cols
    requires y * blackness.cols + blackness.cols <= dst.Length
    modifies dst
    ensures forall k :: y * blackness.cols <= k < y * blackness.cols + blackness.cols ==>
              dst[k] == WhiteImage(blackness, transparent, thresh).data[k]
    ensures forall k :: 0 <= k < dst.Length && !(y * blackness.cols <= k < y * blackness.cols + blackness.cols) ==>
              dst[k] == old(dst[k])
  {
    var cols := blackness.cols;
    var start := y * cols;
    ghost var img := WhiteImage(blackness, transparent, thresh).data;
    var x := 0;
    while x < cols
      invariant x <= cols
      invariant forall k :: start <= k < start + x ==> dst[k] == img[k]
      invariant forall k :: 0 <= k < dst.Length && !(start <= k < start + x) ==> dst[k] == old(dst[k])
    {
      var d := start + x;
      if transparent.data[d] == 0 {
        dst[d] := 0;
      } else {
        var b := blackness.data[d];
        if b >= thresh {
          dst[d] := 0;
        } else {
          var val := (thresh - b) * 255 / thresh;
          dst[d] := Clamp8(val);
        }
      }
      x := x + 1;
    }
  }

  /** generateWhiteCompensation(blackness, transparent, thresh, white): the
      status, and for status 0 the white ink of every pixel; on any other
      status white is left as it was. */
  method GenerateWhiteCompensation(blackness: Mat, transparent: Mat, thresh: int, white: Mat)
    returns (status: int, out: Mat)
    requires blackness.Valid() && transparent.Valid()
    ensures status == WhiteStatus(blackness, transparent, thresh)
    ensures status == 0 ==> out == WhiteImage(blackness, transparent, thresh)
    ensures status != 0 ==> out == white
  {
    if blackness.Empty() || transparent.Empty() {
      return -1, white;
    }
    if blackness.kind != U8C1 || transparent.kind != U8C1 {
      return -2, white;
    }
    if !blackness.SameSize(transparent) {
      return -3, white;
    }
    if thresh <= 0 || thresh > 255 {
      return -4, white;
    }
    var rows, cols := blackness.rows, blackness.cols;
    var dst := new Byte[rows * cols];
    ghost var img := WhiteImage(blackness, transparent, thresh).data;
    var y := 0;
    while y < rows
      invariant y <= rows && y * cols <= rows * cols
      invariant forall k :: 0 <= k < y * cols ==> dst[k] == img[k]
    {
      MulLeft(y + 1, rows, cols);
      WhiteRow(blackness, transparent, thresh, dst, y);
      assert (y + 1) * cols == y * cols + cols;
      y := y + 1;
    }
    assert y * cols == dst.Length;
    assert dst[..] == img;
    return 0, Mat(rows, cols, U8C1, dst[..]);
  }

  /** 255 - m: the byte-wise complement of a single-channel image (OpenCV
      saturates, which on bytes never applies). */
  function Complement(m: Mat): (out: Mat)
    ensures out.rows == m.rows && out.cols == m.cols && out.kind == m.kind
    ensures |out.data| == |m.data|
  {
    Mat(m.rows, m.cols, m.kind, seq<Byte>(|m.data|, i requires 0 <= i < |m.data| => 255 - m.data[i]))
  }

  /** The complement undoes itself, and turns 0 into 255 and 255 into 0. */
  lemma ComplementInvolution(m: Mat)
    ensures Complement(Complement(m)) == m
    ensures forall i :: 0 <= i < |m.data| ==> (Complement(m).data[i] == 255 <==> m.data[i] == 0)
  {
    assert Complement(Complement(m)).data == m.data;
  }
}
