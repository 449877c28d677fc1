/** `yuv_to_rgb_u8`: one decoded planar frame turned into a row-major raster of
    interleaved 8-bit R, G, B values, one triple per luma sample. */
module YuvRaster {

  type Byte = x: int | 0 <= x < 256

  /** The chroma layout of a stream. */
  datatype ChromaSampling = Cs400 | Cs420 | Cs422 | Cs444

  /** The sample container the frame was decoded into: `u8` or `u16`. */
  datatype SampleWidth = OneByte | TwoBytes

  /** The two colour matrices the converter chooses between. */
  datatype MatrixCoefficients = BT601 | BT709

  datatype Rgb = Rgb(r: Byte, g: Byte, b: Byte)

  /** The stream descriptor the decoder reports. */
  datatype VideoDetails = VideoDetails(width: nat, height: nat, bitDepth: nat, chromaSampling: ChromaSampling)

  /** One plane of samples: `rows[y][x]` is the sample `p(x, y)` reads. */
  datatype Plane = Plane(width: nat, height: nat, rows: seq<seq<nat>>) {
    predicate Valid() {
      |rows| == height && forall y :: 0 <= y < |rows| ==> |rows[y]| == width
    }

    /** Every sample is below `bound`. */
    predicate Below(bound: nat) {
      forall y, x :: 0 <= y < |rows| && 0 <= x < |rows[y]| ==> rows[y][x] < bound
    }

    /** Every sample equals `v`. */
    predicate IsUniform(v: nat) {
      forall y, x :: 0 <= y < |rows| && 0 <= x < |rows[y]| ==> rows[y][x] == v
    }

    function P(x: nat, y: nat): nat
      requires Valid() && x < width && y < height
    {
      rows[y][x]
    }
  }

  /** A decoded frame: luma, then the two chroma planes (unused for `Cs400`). */
  datatype Frame = Frame(sampleWidth: SampleWidth, planeY: Plane, planeU: Plane, planeV: Plane)

  function Pow2(n: nat): (r: nat)
    ensures r >= 1
  {
    if n == 0 then 1 else 2 * Pow2(n - 1)
  }

  /** `x >> s` on a non-negative value: `s` halvings. */
  function Shr(x: nat, s: nat): nat {
    if s == 0 then x else Shr(x, s - 1) / 2
  }

  /** A value below 2^(s + n) shifted right by `s` is below 2^n. */
  lemma {:induction false} ShrBelow(x: nat, s: nat, n: nat)
    requires x < Pow2(s + n)
    ensures Shr(x, s) < Pow2(n)
  {
    if s > 0 {
      ShrBelow(x, s - 1, n + 1);
    }
  }

  /** A value below 2^(s + 8) shifted right by `s` fits a byte. */
  lemma ShrFitsByte(x: nat, s: nat)
    ensures x < Pow2(s + 8) ==> Shr(x, s) < 256
  {
    if x < Pow2(s + 8) {
      ShrBelow(x, s, 8);
      assert Pow2(8) == 256;
    }
  }

  /** The largest value the sample container holds, plus one. */
  function ContainerBound(w: SampleWidth): nat {
    match w
    case OneByte => 256
    case TwoBytes => 65536
  }

  /** One sample made a byte: `u8::cast_from(s)` for one-byte samples and
      `(u16::cast_from(s) >> shift) as u8` for two-byte ones; `as u8` keeps the low 8 bits. */
  function Narrow(s: nat, w: SampleWidth, shift: nat): (r: Byte)
    requires s < ContainerBound(w)
    ensures w == OneByte ==> r == s
    ensures w == TwoBytes && s < Pow2(shift + 8) ==> r == Shr(s, shift)
  {
    match w
    case OneByte => s
    case TwoBytes =>
      ShrFitsByte(s, shift);
      Shr(s, shift) % 256
  }

  /** A two-byte sample below 2^bitDepth keeps all its top 8 bits: the cast truncates nothing. */
  lemma ShiftedSampleFits(s: nat, bitDepth: nat)
    requires 8 <= bitDepth < 24 && s < Pow2(bitDepth) && s < 65536
    ensures Shr(s, bitDepth - 8) < 256
    ensures Narrow(s, TwoBytes, bitDepth - 8) == Shr(s, bitDepth - 8)
  {
    ShrBelow(s, bitDepth - 8, 8);
    assert Pow2(8) == 256;
  }

  lemma MulMonotone(a: nat, b: nat, c: nat)
    requires a <= b
    ensures a * c <= b * c
  {
  }

  /** The colour matrix is chosen from the luma height alone. */
  function ColorMatrix(lumaHeight: nat): (m: MatrixCoefficients)
    ensures m == BT709 <==> lumaHeight > 576
    ensures m == BT601 <==> lumaHeight <= 576
  {
    if lumaHeight > 576 then BT709 else BT601
  }

  /** The chroma shifts `(ss_x, ss_y)`, with 4:2:2 as `(0, 1)`, which halves the vertical axis. */
  function ChromaShift(cs: ChromaSampling): (r: (nat, nat))
    requires cs != Cs400
    ensures r.0 <= r.1 <= 1
    ensures r.0 == 1 <==> cs == Cs420
    ensures r.1 == 0 <==> cs == Cs444
  {
    match cs
    case Cs420 => (1, 1)
    case Cs422 => (0, 1)
    case Cs444 => (0, 0)
  }

  /** Every chroma coordinate read for a luma coordinate lies inside `chroma`. */
  predicate ChromaCovers(luma: Plane, chroma: Plane, ssx: nat, ssy: nat) {
    && chroma.Valid()
    && (forall x :: 0 <= x < luma.width ==> Shr(x, ssx) < chroma.width)
    && (forall y :: 0 <= y < luma.height ==> Shr(y, ssy) < chroma.height)
  }

  /** What the conversion needs of its inputs: a bit depth of at least 8 (the shift is
      `bit_depth - 8` on an unsigned) and, for two-byte samples, a shift below 16 (the
      width of `u16`); samples that fit their container; chroma that covers every read. */
  predicate Convertible(f: Frame, d: VideoDetails) {
    && 8 <= d.bitDepth
    && (f.sampleWidth == TwoBytes ==> d.bitDepth < 24)
    && f.planeY.Valid()
    && f.planeY.Below(ContainerBound(f.sampleWidth))
    && f.planeU.Below(ContainerBound(f.sampleWidth))
    && f.planeV.Below(ContainerBound(f.sampleWidth))
    && (d.chromaSampling != Cs400 ==>
          var (ssx, ssy) := ChromaShift(d.chromaSampling);
          ChromaCovers(f.planeY, f.planeU, ssx, ssy) && ChromaCovers(f.planeY, f.planeV, ssx, ssy))
  }

  /** The luma sample at (x, y) made a byte. */
  function LumaByte(f: Frame, d: VideoDetails, x: nat, y: nat): Byte
    requires Convertible(f, d) && x < f.planeY.width && y < f.planeY.height
  {
    Narrow(f.planeY.P(x, y), f.sampleWidth, d.bitDepth - 8)
  }

  /** The output triple for the luma coordinate (x, y). `toRgb` stands for the colour
      library's `RGBConvert::to_rgb` for limited range and the given matrix. */
  function PixelAt(f: Frame, d: VideoDetails, toRgb: (MatrixCoefficients, Byte, Byte, Byte) -> Rgb, x: nat, y: nat): (r: Rgb)
    requires Convertible(f, d) && x < f.planeY.width && y < f.planeY.height
    ensures d.chromaSampling == Cs400 ==> r.r == r.g == r.b == LumaByte(f, d, x, y)
    ensures d.chromaSampling != Cs400 ==> exists u: Byte, v: Byte :: r == toRgb(ColorMatrix(f.planeY.height), LumaByte(f, d, x, y), u, v)
  {
    var luma := LumaByte(f, d, x, y);
    if d.chromaSampling == Cs400 then Rgb(luma, luma, luma)
    else
      var (ssx, ssy) := ChromaShift(d.chromaSampling);
      var (cx, cy) := (Shr(x, ssx), Shr(y, ssy));
      var u := Narrow(f.planeU.P(cx, cy), f.sampleWidth, d.bitDepth - 8);
      var v := Narrow(f.planeV.P(cx, cy), f.sampleWidth, d.bitDepth - 8);
      toRgb(ColorMatrix(f.planeY.height), luma, u, v)
  }

  function RgbBytes(c: Rgb): seq<Byte> {
    [c.r, c.g, c.b]
  }

  /** The bytes of the first `n` pixels of row `y`. */
  function RowBytes(f: Frame, d: VideoDetails, toRgb: (MatrixCoefficients, Byte, Byte, Byte) -> Rgb, y: nat, n: nat): (r: seq<Byte>)
    requires Convertible(f, d) && y < f.planeY.height && n <= f.planeY.width
    ensures |r| == 3 * n
  {
    if n == 0 then [] else RowBytes(f, d, toRgb, y, n - 1) + RgbBytes(PixelAt(f, d, toRgb, n - 1, y))
  }

  /** The bytes of the first `m` rows. */
  function RasterRows(f: Frame, d: VideoDetails, toRgb: (MatrixCoefficients, Byte, Byte, Byte) -> Rgb, m: nat): (r: seq<Byte>)
    requires Convertible(f, d) && m <= f.planeY.height
    ensures |r| == m * (3 * f.planeY.width)
  {
    if m == 0 then []
    else
      var r := RasterRows(f, d, toRgb, m - 1) + RowBytes(f, d, toRgb, m - 1, f.planeY.width);
      assert |r| == (m - 1) * (3 * f.planeY.width) + 3 * f.planeY.width;
      r
  }

  /** `yuv_to_rgb_u8`: the raster has width × height × 3 bytes of the luma plane. */
  function YuvToRgbU8(f: Frame, d: VideoDetails, toRgb: (MatrixCoefficients, Byte, Byte, Byte) -> Rgb): (r: seq<Byte>)
    requires Convertible(f, d)
    ensures |r| == f.planeY.width * f.planeY.height * 3
  {
    RasterRows(f, d, toRgb, f.planeY.height)
  }

  /** The three bytes of a raster starting at index `i`, as one pixel. */
  function TripleAt(r: seq<Byte>, i: nat): Rgb
    requires i + 2 < |r|
  {
    Rgb(r[i], r[i + 1], r[i + 2])
  }

  lemma {:induction false} RowBytesAt(f: Frame, d: VideoDetails, toRgb: (MatrixCoefficients, Byte, Byte, Byte) -> Rgb, y: nat, n: nat, x: nat)
    requires Convertible(f, d) && y < f.planeY.height && n <= f.planeY.width && x < n
    ensures TripleAt(RowBytes(f, d, toRgb, y, n), 3 * x) == PixelAt(f, d, toRgb, x, y)
  {
    if x < n - 1 {
      RowBytesAt(f, d, toRgb, y, n - 1, x);
    }
  }

  lemma {:induction false} RasterRowsAt(f: Frame, d: VideoDetails, toRgb: (MatrixCoefficients, Byte, Byte, Byte) -> Rgb, m: nat, y: nat, k: nat)
    requires Convertible(f, d) && m <= f.planeY.height && y < m && k < 3 * f.planeY.width
    ensures y * (3 * f.planeY.width) + k < |RasterRows(f, d, toRgb, m)|
    ensures RasterRows(f, d, toRgb, m)[y * (3 * f.planeY.width) + k] == RowBytes(f, d, toRgb, y, f.planeY.width)[k]
  {
    var w3 := 3 * f.planeY.width;
    assert (m - 1) * w3 + w3 == m * w3;
    if y < m - 1 {
      RasterRowsAt(f, d, toRgb, m - 1, y, k);
      MulMonotone(y + 1, m - 1, w3);
    }
  }

  /** The index of the first byte of the pixel (x, y) in a raster `width` pixels wide. */
  function PixelOffset(width: nat, x: nat, y: nat): nat {
    3 * (y * width + x)
  }

  lemma PixelOffsetSplit(width: nat, x: nat, y: nat)
    ensures PixelOffset(width, x, y) == y * (3 * width) + 3 * x
  {
  }

  /** Row-major interleaving: the pixel for (x, y) occupies bytes 3·(y·width + x) to 3·(y·width + x) + 2. */
  lemma PixelLayout(f: Frame, d: VideoDetails, toRgb: (MatrixCoefficients, Byte, Byte, Byte) -> Rgb, x: nat, y: nat)
    requires Convertible(f, d) && x < f.planeY.width && y < f.planeY.height
    ensures PixelOffset(f.planeY.width, x, y) + 2 < |YuvToRgbU8(f, d, toRgb)|
    ensures TripleAt(YuvToRgbU8(f, d, toRgb), PixelOffset(f.planeY.width, x, y)) == PixelAt(f, d, toRgb, x, y)
  {
    var w, h := f.planeY.width, f.planeY.height;
    var row := RowBytes(f, d, toRgb, y, w);
    var raster := RasterRows(f, d, toRgb, h);
    var i := y * (3 * w) + 3 * x;
    PixelOffsetSplit(w, x, y);
    RowBytesAt(f, d, toRgb, y, w, x);
    RasterRowsAt(f, d, toRgb, h, y, 3 * x);
    RasterRowsAt(f, d, toRgb, h, y, 3 * x + 1);
    RasterRowsAt(f, d, toRgb, h, y, 3 * x + 2);
    assert TripleAt(raster, i) == TripleAt(row, 3 * x);
  }

  /** Mono frames bypass the matrix: R = G = B = the luma sample, unshifted for one-byte
      samples and shifted right by bit_depth − 8 for two-byte ones, with nothing lost
      to the byte cast when the sample is below 2^bit_depth. */
  lemma MonoRasterIsGray(f: Frame, d: VideoDetails, toRgb: (MatrixCoefficients, Byte, Byte, Byte) -> Rgb, x: nat, y: nat)
    requires Convertible(f, d) && d.chromaSampling == Cs400 && x < f.planeY.width && y < f.planeY.height
    ensures PixelOffset(f.planeY.width, x, y) + 2 < |YuvToRgbU8(f, d, toRgb)|
    ensures var px := TripleAt(YuvToRgbU8(f, d, toRgb), PixelOffset(f.planeY.width, x, y));
      px.r == px.g == px.b
    ensures var px := TripleAt(YuvToRgbU8(f, d, toRgb), PixelOffset(f.planeY.width, x, y));
      f.sampleWidth == OneByte ==> px.r == f.planeY.rows[y][x]
    ensures var px := TripleAt(YuvToRgbU8(f, d, toRgb), PixelOffset(f.planeY.width, x, y));
      f.sampleWidth == TwoBytes && f.planeY.rows[y][x] < Pow2(d.bitDepth) ==>
        px.r == Shr(f.planeY.rows[y][x], d.bitDepth - 8) < 256
  {
    PixelLayout(f, d, toRgb, x, y);
    if f.sampleWidth == TwoBytes && f.planeY.rows[y][x] < Pow2(d.bitDepth) {
      ShiftedSampleFits(f.planeY.rows[y][x], d.bitDepth);
    }
  }

  /** A colour pixel is `toRgb` of its own (Y, U, V) triple alone: BT.709 above 576 luma
      rows and BT.601 up to 576, chroma read at (x >> ss_x, y >> ss_y). */
  lemma ColourPixel(f: Frame, d: VideoDetails, toRgb: (MatrixCoefficients, Byte, Byte, Byte) -> Rgb, x: nat, y: nat)
    requires Convertible(f, d) && d.chromaSampling != Cs400 && x < f.planeY.width && y < f.planeY.height
    ensures PixelOffset(f.planeY.width, x, y) + 2 < |YuvToRgbU8(f, d, toRgb)|
    ensures var (ssx, ssy) := ChromaShift(d.chromaSampling);
      Shr(x, ssx) < f.planeU.width && Shr(y, ssy) < f.planeU.height &&
      Shr(x, ssx) < f.planeV.width && Shr(y, ssy) < f.planeV.height &&
      TripleAt(YuvToRgbU8(f, d, toRgb), PixelOffset(f.planeY.width, x, y)) ==
        toRgb(if f.planeY.height > 576 then BT709 else BT601,
              Narrow(f.planeY.rows[y][x], f.sampleWidth, d.bitDepth - 8),
              Narrow(f.planeU.rows[Shr(y, ssy)][Shr(x, ssx)], f.sampleWidth, d.bitDepth - 8),
              Narrow(f.planeV.rows[Shr(y, ssy)][Shr(x, ssx)], f.sampleWidth, d.bitDepth - 8))
  {
    PixelLayout(f, d, toRgb, x, y);
  }

  /** Two luma coordinates with equal luma samples that share a chroma cell get the same
      colour: the chroma a pixel sees depends only on (x >> ss_x, y >> ss_y). */
  lemma SharedChromaCell(f: Frame, d: VideoDetails, toRgb: (MatrixCoefficients, Byte, Byte, Byte) -> Rgb,
                         x1: nat, y1: nat, x2: nat, y2: nat)
    requires Convertible(f, d) && d.chromaSampling != Cs400
    requires x1 < f.planeY.width && y1 < f.planeY.height && x2 < f.planeY.width && y2 < f.planeY.height
    requires f.planeY.P(x1, y1) == f.planeY.P(x2, y2)
    requires var (ssx, ssy) := ChromaShift(d.chromaSampling);
      Shr(x1, ssx) == Shr(x2, ssx) && Shr(y1, ssy) == Shr(y2, ssy)
    ensures PixelAt(f, d, toRgb, x1, y1) == PixelAt(f, d, toRgb, x2, y2)
  {
  }

  /** The shift pairs: 4:2:0 halves both axes, the as-written 4:2:2 pair halves only the
      vertical one, 4:4:4 halves neither. */
  lemma ChromaShiftHalves(cs: ChromaSampling, x: nat, y: nat)
    requires cs != Cs400
    ensures var (ssx, ssy) := ChromaShift(cs);
      && (cs == Cs420 ==> Shr(x, ssx) == x / 2 && Shr(y, ssy) == y / 2)
      && (cs == Cs422 ==> Shr(x, ssx) == x && Shr(y, ssy) == y / 2)
      && (cs == Cs444 ==> Shr(x, ssx) == x && Shr(y, ssy) == y)
  {
  }

  /** `n` copies of the bytes of `c`. */
  function RepeatRgb(c: Rgb, n: nat): (r: seq<Byte>)
    ensures |r| == 3 * n
  {
    if n == 0 then [] else RepeatRgb(c, n - 1) + RgbBytes(c)
  }

  lemma {:induction false} RepeatRgbAdd(c: Rgb, a: nat, b: nat)
    ensures RepeatRgb(c, a + b) == RepeatRgb(c, a) + RepeatRgb(c, b)
  {
    if b > 0 {
      RepeatRgbAdd(c, a, b - 1);
    }
  }

  /** The colour every pixel of a frame with uniform planes gets. */
  function UniformColour(f: Frame, d: VideoDetails, toRgb: (MatrixCoefficients, Byte, Byte, Byte) -> Rgb, yv: nat, uv: nat, vv: nat): Rgb
    requires 8 <= d.bitDepth
    requires yv < ContainerBound(f.sampleWidth) && uv < ContainerBound(f.sampleWidth) && vv < ContainerBound(f.sampleWidth)
  {
    var luma := Narrow(yv, f.sampleWidth, d.bitDepth - 8);
    if d.chromaSampling == Cs400 then Rgb(luma, luma, luma)
    else toRgb(ColorMatrix(f.planeY.height), luma,
               Narrow(uv, f.sampleWidth, d.bitDepth - 8), Narrow(vv, f.sampleWidth, d.bitDepth - 8))
  }

  lemma {:induction false} UniformRow(f: Frame, d: VideoDetails, toRgb: (MatrixCoefficients, Byte, Byte, Byte) -> Rgb, c: Rgb, y: nat, n: nat)
    requires Convertible(f, d) && y < f.planeY.height && n <= f.planeY.width
    requires forall x :: 0 <= x < n ==> PixelAt(f, d, toRgb, x, y) == c
    ensures RowBytes(f, d, toRgb, y, n) == RepeatRgb(c, n)
  {
    if n > 0 {
      UniformRow(f, d, toRgb, c, y, n - 1);
    }
  }

  lemma {:induction false} UniformRows(f: Frame, d: VideoDetails, toRgb: (MatrixCoefficients, Byte, Byte, Byte) -> Rgb, c: Rgb, m: nat)
    requires Convertible(f, d) && m <= f.planeY.height
    requires forall y, x :: 0 <= y < m && 0 <= x < f.planeY.width ==> PixelAt(f, d, toRgb, x, y) == c
    ensures RasterRows(f, d, toRgb, m) == RepeatRgb(c, m * f.planeY.width)
  {
    if m > 0 {
      var w := f.planeY.width;
      UniformRows(f, d, toRgb, c, m - 1);
      UniformRow(f, d, toRgb, c, m - 1, w);
      assert (m - 1) * w + w == m * w;
      RepeatRgbAdd(c, (m - 1) * w, w);
    }
  }

  /** Uniform planes give a uniform raster: every pixel is the one colour their samples convert to. */
  lemma UniformFrameGivesUniformRaster(f: Frame, d: VideoDetails, toRgb: (MatrixCoefficients, Byte, Byte, Byte) -> Rgb, yv: nat, uv: nat, vv: nat)
    requires Convertible(f, d)
    requires f.planeY.IsUniform(yv) && f.planeU.IsUniform(uv) && f.planeV.IsUniform(vv)
    requires yv < ContainerBound(f.sampleWidth) && uv < ContainerBound(f.sampleWidth) && vv < ContainerBound(f.sampleWidth)
    ensures YuvToRgbU8(f, d, toRgb) == RepeatRgb(UniformColour(f, d, toRgb, yv, uv, vv), f.planeY.width * f.planeY.height)
  {
    var c := UniformColour(f, d, toRgb, yv, uv, vv);
    forall y, x | 0 <= y < f.planeY.height && 0 <= x < f.planeY.width
      ensures PixelAt(f, d, toRgb, x, y) == c
    {
    }
    UniformRows(f, d, toRgb, c, f.planeY.height);
    assert f.planeY.height * f.planeY.width == f.planeY.width * f.planeY.height;
  }
}
