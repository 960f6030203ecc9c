/** The raster vocabulary the composite core works with: colour spaces,
    colour and sample models, cacheable rasters and writable target buffers.
    Pixel values are opaque sample vectors; only their positions matter here. */
module Images {
  import opened Geometry

  /** The samples of one pixel. */
  type Pixel = seq<int>

  /** The pixel a cleared raster holds: every sample zero. */
  function ZeroPixel(bands: nat): (z: Pixel)
    ensures |z| == bands
    ensures forall i :: 0 <= i < bands ==> z[i] == 0
  {
    seq(bands, _ => 0)
  }

  /** ColorSpace.getInstance returns one shared instance per kind, so Java's
      reference comparison of colour spaces is equality here. */
  datatype ColorSpace = LinearRGB | SRGB | OtherSpace(id: nat)

  /** How a colour model packs samples: a packed-int DirectColorModel with its
      bit width and red, green, blue, alpha masks, or some other layout. */
  datatype Layout =
    | DirectInt(bits: nat, masks: seq<int>)
    | OtherLayout(id: nat)

  datatype ColorModel = ColorModel(
    space: ColorSpace,
    hasAlpha: bool,
    premultiplied: bool,
    layout: Layout)

  /** The shape of a sample model: tile width, tile height and band count. */
  datatype SampleModel = SampleModel(width: nat, height: nat, numBands: nat)

  /** A cacheable rendered image (CachableRed): its bounds, models and pixels.
      `pixel` is meaningful inside `bounds`. */
  datatype Raster = Raster(bounds: Rect, cm: ColorModel, sm: SampleModel, pixel: Point -> Pixel)

  /** A writable raster positioned at `bounds`; `at` is meaningful inside it. */
  datatype Buffer = Buffer(bounds: Rect, bands: nat, at: Point -> Pixel)

  /** The failures the core reports (IllegalArgumentException in every case;
      an empty source list fails at the first list access). */
  datatype Error =
    | NoSource
    | TooManyBands(bands: nat)
    | UnsupportedColorSpace(cs: ColorSpace)

  /** PadRed in ZERO_PAD mode: reports `bounds`, passes the source's pixels
      through inside the source's own bounds and is transparent black
      elsewhere. */
  function ZeroPad(src: Raster, bounds: Rect): (r: Raster)
    ensures r.bounds == bounds && r.cm == src.cm && r.sm == src.sm
    ensures forall p :: src.bounds.Contains(p) ==> r.pixel(p) == src.pixel(p)
    ensures forall p :: !src.bounds.Contains(p) ==> r.pixel(p) == ZeroPixel(src.sm.numBands)
  {
    var inner := src;
    src.(bounds := bounds,
         pixel := p => if inner.bounds.Contains(p) then inner.pixel(p) else ZeroPixel(inner.sm.numBands))
  }

  /** FloodRed over `bounds` with the colour (0,0,0,0): a fully transparent
      placeholder image. The colour and sample models FloodRed picks for
      itself are given. */
  function TransparentFlood(bounds: Rect, cm: ColorModel, sm: SampleModel): (r: Raster)
    ensures r.bounds == bounds && r.cm == cm && r.sm == sm
    ensures forall p :: r.pixel(p) == ZeroPixel(sm.numBands)
  {
    Raster(bounds, cm, sm, _ => ZeroPixel(sm.numBands))
  }
}
