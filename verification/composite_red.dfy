/** CompositeRed: the tiled raster that composites an ordered list of
    normalised sources under one rule, generating any requested rectangle on
    demand. */
module Composite {
  import opened Wrappers
  import opened Geometry
  import opened Int32
  import opened Rules
  import opened Images
  import opened BoundsAlgebra

  /** SVGComposite.createContext(source colour model, result colour model):
      the per-source blending operator, kept as the values it depends on. */
  datatype OperatorContext = OperatorContext(rule: CompositeRule, srcCm: ColorModel, dstCm: ColorModel)

  /** The pixel arithmetic the core calls but does not define: the blend of
      one source pixel into one target pixel, and the conversion of a pixel
      of the given colour model to premultiplied alpha. */
  datatype PixelOps = PixelOps(
    blend: (OperatorContext, Pixel, Pixel) -> Pixel,
    premultiply: (ColorModel, Pixel) -> Pixel)

  datatype CompositeRed = CompositeRed(
    rule: CompositeRule,
    contexts: seq<OperatorContext>,
    srcs: seq<Raster>,
    bounds: Rect,
    cm: ColorModel,
    sm: SampleModel,
    tileGridXOff: int,
    tileGridYOff: int)
  {
    /** One operator context per source, and at least one source. */
    predicate Valid() {
      |srcs| > 0 && |contexts| == |srcs|
    }
  }

  // ---------------------------------------------------------------------
  // Construction

  /** `v & 0xFFFFFF00`: the tile-grid origin for a raster starting at `v`,
      the multiple of 256 at or below `v`. */
  function TileGridOrigin(v: int): (tg: int)
    requires IsInt32(v)
    ensures tg % 256 == 0
    ensures tg <= v && v - tg < 256
  {
    AlignDownIsFloor(v);
    DivUnique(v - v % 256, 256, v / 256, 0);
    And(v, TILE_MASK)
  }

  /** fixSampleModel: the source's sample model resized so a tile is at
      least 256 wide and high but never reaches past the result bounds as
      measured from the tile-grid origin. */
  function FixSampleModel(sm: SampleModel, bounds: Rect): (r: SampleModel)
    requires IntOrigin(bounds)
    ensures r.numBands == sm.numBands
    ensures var tw := bounds.Right() - TileGridOrigin(bounds.x);
            r.width <= tw && (r.width <= 256 || r.width <= sm.width)
            && (r.width == tw || (r.width >= 256 && r.width >= sm.width))
    ensures var th := bounds.Bottom() - TileGridOrigin(bounds.y);
            r.height <= th && (r.height <= 256 || r.height <= sm.height)
            && (r.height == th || (r.height >= 256 && r.height >= sm.height))
  {
    var tw := bounds.Right() - TileGridOrigin(bounds.x);
    var w := if sm.width < 256 then 256 else sm.width;
    var w' := if w > tw then tw else w;
    var th := bounds.Bottom() - TileGridOrigin(bounds.y);
    var h := if sm.height < 256 then 256 else sm.height;
    var h' := if h > th then th else h;
    SampleModel(w', h', sm.numBands)
  }

  /** The colour-mask constants of fixColorModel, as the bytes they select:
      colour i takes byte 2 - i and alpha takes byte n. */
  lemma MaskBytes(n: nat)
    requires n <= 3
    ensures forall i :: 0 <= i < 3 ==> ShiftRight(0xFF_0000, 8 * i) == 0xFF * Pow2(8 * (2 - i))
    ensures ToBits(ShiftLeft(0xFF, 8 * n)) == 0xFF * Pow2(8 * n)
  {
    Pow2Bytes();
    assert Pow2(0) == 1;
    DivUnique(0xFF_0000, 0x100, 0xFF00, 0);
    DivUnique(0xFF_0000, 0x1_0000, 0xFF, 0);
    assert ToBits(0xFF) == 0xFF;
    DivUnique(0xFF * Pow2(8 * n), TWO_32, 0, 0xFF * Pow2(8 * n));
  }

  /** fixColorModel: the result colour model. A model with alpha is kept,
      made premultiplied; a model without alpha gains an alpha band in a
      packed-int layout, and more than four bands in all is refused. */
  function FixColorModel(src: Raster): (r: Result<ColorModel, Error>)
    ensures src.cm.hasAlpha ==> r == Success(src.cm.(premultiplied := true))
    ensures !src.cm.hasAlpha && src.sm.numBands + 1 > 4
            ==> r == Failure(TooManyBands(src.sm.numBands + 1))
    ensures !src.cm.hasAlpha && src.sm.numBands + 1 <= 4 ==>
              r.Success? && r.value.space == src.cm.space
              && r.value.hasAlpha && r.value.premultiplied
              && r.value.layout.DirectInt?
              && r.value.layout.bits == 8 * (src.sm.numBands + 1)
              && |r.value.layout.masks| == 4
              && (forall i :: 0 <= i < 3 ==>
                    r.value.layout.masks[i] == (if i < src.sm.numBands then 0xFF * Pow2(8 * (2 - i)) else 0))
              && ToBits(r.value.layout.masks[3]) == 0xFF * Pow2(8 * src.sm.numBands)
  {
    var cm := src.cm;
    if cm.hasAlpha then
      // GraphicsUtil.coerceColorModel(cm, true), a no-op when already premultiplied
      Success(cm.(premultiplied := true))
    else
      var b := src.sm.numBands + 1;
      if b > 4 then Failure(TooManyBands(b))
      else
        MaskBytes(b - 1);
        var masks := seq(4, i requires 0 <= i < 4 =>
          if i == 3 then ShiftLeft(0xFF, 8 * (b - 1))
          else if i < b - 1 then ShiftRight(0xFF_0000, 8 * i)
          else 0);
        Success(ColorModel(cm.space, true, true, DirectInt(8 * b, masks)))
  }

  /** The packed layout fixColorModel builds lets alpha share a byte with a
      colour mask exactly in the two-band case, where alpha equals the first
      colour mask. */
  lemma {:induction false} AlphaSharesByteOnlyForTwoBands(src: Raster, i: nat)
    requires !src.cm.hasAlpha && src.sm.numBands <= 3
    requires i < src.sm.numBands
    ensures var masks := FixColorModel(src).value.layout.masks;
            ToBits(masks[3]) == masks[i] <==> (src.sm.numBands == 2 && i == 0)
  {
    var n := src.sm.numBands;
    Pow2Bytes();
    assert Pow2(0) == 1;
    assert i == 0 || i == 1 || i == 2;
    assert n == 1 || n == 2 || n == 3;
  }

  function BoundsOf(srcs: seq<Raster>): (bs: seq<Rect>)
    ensures |bs| == |srcs|
    ensures forall i :: 0 <= i < |srcs| ==> bs[i] == srcs[i].bounds
  {
    seq(|srcs|, i requires 0 <= i < |srcs| => srcs[i].bounds)
  }

  /** The ARITHMETIC padding pass: every source whose bounds differ from
      `b` is zero-padded to `b`; the others are kept as they are. */
  function PadAll(srcs: seq<Raster>, b: Rect): (padded: seq<Raster>)
    ensures |padded| == |srcs|
    ensures forall i :: 0 <= i < |srcs| ==> padded[i].bounds == b && padded[i].cm == srcs[i].cm
    ensures forall i :: 0 <= i < |srcs| && srcs[i].bounds == b ==> padded[i] == srcs[i]
    ensures forall i, p :: 0 <= i < |srcs| && srcs[i].bounds.Contains(p)
                           ==> padded[i].pixel(p) == srcs[i].pixel(p)
    ensures forall i, p :: 0 <= i < |srcs| && b.Contains(p) && !srcs[i].bounds.Contains(p)
                           ==> padded[i].pixel(p) == ZeroPixel(srcs[i].sm.numBands)
  {
    seq(|srcs|, i requires 0 <= i < |srcs| =>
      if srcs[i].bounds == b then srcs[i] else ZeroPad(srcs[i], b))
  }

  /** The constructor once the result colour model `cm` is known: contexts,
      bounds algebra, ARITHMETIC padding, tile sample model and tile grid. */
  function Assemble(srcs: seq<Raster>, rule: CompositeRule, cm: ColorModel): (c: CompositeRed)
    requires |srcs| > 0 && AllIntOrigins(BoundsOf(srcs))
    ensures c.Valid() && c.rule == rule && c.cm == cm && |c.srcs| == |srcs|
    ensures c.bounds == CombineBounds(rule, BoundsOf(srcs))
    ensures c.sm == FixSampleModel(srcs[0].sm, c.bounds)
    ensures forall i :: 0 <= i < |srcs| ==> c.contexts[i] == OperatorContext(rule, srcs[i].cm, cm)
    ensures c.tileGridXOff % 256 == 0 && c.tileGridXOff <= c.bounds.x < c.tileGridXOff + 256
    ensures c.tileGridYOff % 256 == 0 && c.tileGridYOff <= c.bounds.y < c.tileGridYOff + 256
    ensures !rule.Arithmetic? ==> c.srcs == srcs
    ensures rule.Arithmetic? ==> c.srcs == PadAll(srcs, c.bounds)
    ensures rule.Arithmetic? ==>
              forall i :: 0 <= i < |srcs| ==>
                c.srcs[i].bounds == c.bounds && (srcs[i].bounds == c.bounds ==> c.srcs[i] == srcs[i])
  {
    var contexts := seq(|srcs|, i requires 0 <= i < |srcs| => OperatorContext(rule, srcs[i].cm, cm));
    var myBounds := CombineBounds(rule, BoundsOf(srcs));
    var kept := if rule.Arithmetic? then PadAll(srcs, myBounds) else srcs;
    var sm := FixSampleModel(srcs[0].sm, myBounds);
    CompositeRed(rule, contexts, kept, myBounds, cm, sm,
                 TileGridOrigin(myBounds.x), TileGridOrigin(myBounds.y))
  }

  /** The CompositeRed constructor: an empty source list and a colour model
      that cannot be widened are refused; otherwise the raster is assembled
      around the first source's fixed colour model. */
  function NewCompositeRed(srcs: seq<Raster>, rule: CompositeRule): (r: Result<CompositeRed, Error>)
    requires AllIntOrigins(BoundsOf(srcs))
    ensures r == Failure(NoSource) <==> |srcs| == 0
    ensures r.Failure? && |srcs| > 0 <==> |srcs| > 0 && !srcs[0].cm.hasAlpha && srcs[0].sm.numBands > 3
    ensures r.Failure? && |srcs| > 0 ==> r.error == TooManyBands(srcs[0].sm.numBands + 1)
    ensures r.Success? ==> FixColorModel(srcs[0]) == Success(r.value.cm)
                           && r.value == Assemble(srcs, rule, r.value.cm)
  {
    if |srcs| == 0 then Failure(NoSource)
    else
      var cm :- FixColorModel(srcs[0]);
      Success(Assemble(srcs, rule, cm))
  }

  // ---------------------------------------------------------------------
  // Pixel generation

  /** The test in genRect for a target that reaches outside `b`. */
  predicate LeavesBounds(r: Rect, b: Rect) {
    r.x < b.x || r.y < b.y || r.x + r.width > b.x + b.width || r.y + r.height > b.y + b.height
  }

  /** emptyRect: clears the whole target. */
  function EmptyRect(wr: Buffer): (r: Buffer)
    ensures r.bounds == wr.bounds && r.bands == wr.bands
    ensures forall p :: r.at(p) == ZeroPixel(wr.bands)
  {
    wr.(at := _ => ZeroPixel(wr.bands))
  }

  /** CachableRed.copyData: writes the source's pixels where it overlaps the
      target and leaves the rest of the target alone. */
  function CopyOverlap(src: Raster, wr: Buffer): (r: Buffer)
    ensures r.bounds == wr.bounds && r.bands == wr.bands
    ensures forall p :: src.bounds.Contains(p) && wr.bounds.Contains(p) ==> r.at(p) == src.pixel(p)
    ensures forall p :: !(src.bounds.Contains(p) && wr.bounds.Contains(p)) ==> r.at(p) == wr.at(p)
  {
    wr.(at := p => if src.bounds.Contains(p) && wr.bounds.Contains(p) then src.pixel(p) else wr.at(p))
  }

  /** GraphicsUtil.coerceData towards premultiplied alpha, pixel by pixel. */
  function CoercePremultiplied(wr: Buffer, cm: ColorModel, ops: PixelOps): (r: Buffer)
    ensures r.bounds == wr.bounds && r.bands == wr.bands
    ensures forall p :: r.at(p) == ops.premultiply(cm, wr.at(p))
  {
    wr.(at := p => ops.premultiply(cm, wr.at(p)))
  }

  /** What the base (first) source leaves at `p` of a target with `bands`
      bands: its own pixel inside its bounds, zero outside, premultiplied
      when the source is not. */
  function BaseValue(src: Raster, bands: nat, ops: PixelOps, p: Point): Pixel {
    var v := if src.bounds.Contains(p) then src.pixel(p) else ZeroPixel(bands);
    if src.cm.premultiplied then v else ops.premultiply(src.cm, v)
  }

  /** The first iteration of genRect: clear the target when it reaches
      outside the base source, copy the base source in, premultiply. The
      result no longer depends on what the target held before. */
  function BaseStep(src: Raster, wr: Buffer, ops: PixelOps): (r: Buffer)
    ensures r.bounds == wr.bounds && r.bands == wr.bands
    ensures forall p :: wr.bounds.Contains(p) ==> r.at(p) == BaseValue(src, wr.bands, ops, p)
  {
    var cleared := if LeavesBounds(wr.bounds, src.bounds) then EmptyRect(wr) else wr;
    var copied := CopyOverlap(src, cleared);
    if src.cm.premultiplied then copied else CoercePremultiplied(copied, src.cm, ops)
  }

  /** A later iteration of genRect: blend the source into the target on
      their common rectangle only. */
  function ComposeStep(src: Raster, ctx: OperatorContext, wr: Buffer, ops: PixelOps): (r: Buffer)
    ensures r.bounds == wr.bounds && r.bands == wr.bands
    ensures forall p :: !(src.bounds.Contains(p) && wr.bounds.Contains(p)) ==> r.at(p) == wr.at(p)
    ensures forall p :: src.bounds.Contains(p) && wr.bounds.Contains(p)
                        ==> r.at(p) == ops.blend(ctx, src.pixel(p), wr.at(p))
    ensures !Intersects(src.bounds, wr.bounds) ==> r == wr
  {
    if Intersects(src.bounds, wr.bounds) then
      var smR := Intersection(src.bounds, wr.bounds);
      wr.(at := p => if smR.Contains(p) then ops.blend(ctx, src.pixel(p), wr.at(p)) else wr.at(p))
    else
      IntersectsIffSharedPoint(src.bounds, wr.bounds);
      wr
  }

  /** The composite value at one point after the first k sources: the
      reference that genRect is measured against. */
  function PixelUpTo(cr: CompositeRed, bands: nat, ops: PixelOps, k: nat, p: Point): Pixel
    requires cr.Valid() && 1 <= k <= |cr.srcs|
  {
    if k == 1 then BaseValue(cr.srcs[0], bands, ops, p)
    else
      var prev := PixelUpTo(cr, bands, ops, k - 1, p);
      var s := cr.srcs[k - 1];
      if s.bounds.Contains(p) then ops.blend(cr.contexts[k - 1], s.pixel(p), prev) else prev
  }

  /** The composite value at one point. */
  function PixelAt(cr: CompositeRed, bands: nat, ops: PixelOps, p: Point): Pixel
    requires cr.Valid()
  {
    PixelUpTo(cr, bands, ops, |cr.srcs|, p)
  }

  /** genRect: fills the target with the composite of all sources. Every
      point of the target ends up with the point's composite value, whatever
      the target held and wherever the target lies. */
  method GenRect(cr: CompositeRed, wr: Buffer, ops: PixelOps) returns (out: Buffer)
    requires cr.Valid()
    ensures out.bounds == wr.bounds && out.bands == wr.bands
    ensures forall p :: wr.bounds.Contains(p) ==> out.at(p) == PixelAt(cr, wr.bands, ops, p)
  {
    out := wr;
    var idx := 0;
    while idx < |cr.srcs|
      invariant 0 <= idx <= |cr.srcs|
      invariant out.bounds == wr.bounds && out.bands == wr.bands
      invariant idx >= 1 ==> forall p :: wr.bounds.Contains(p) ==> out.at(p) == PixelUpTo(cr, wr.bands, ops, idx, p)
    {
      var src := cr.srcs[idx];
      if idx == 0 {
        out := BaseStep(src, out, ops);
      } else {
        out := ComposeStep(src, cr.contexts[idx], out, ops);
      }
      idx := idx + 1;
    }
  }

  /** copyData: generates a caller-positioned rectangle. */
  method CopyData(cr: CompositeRed, wr: Buffer, ops: PixelOps) returns (out: Buffer)
    requires cr.Valid()
    ensures out.bounds == wr.bounds && out.bands == wr.bands
    ensures forall p :: wr.bounds.Contains(p) ==> out.at(p) == PixelAt(cr, wr.bands, ops, p)
  {
    out := GenRect(cr, wr, ops);
  }

  /** The rectangle of tile (tx, ty). */
  function TileRect(cr: CompositeRed, tx: int, ty: int): Rect {
    Rect(cr.tileGridXOff + tx * cr.sm.width, cr.tileGridYOff + ty * cr.sm.height, cr.sm.width, cr.sm.height)
  }

  /** getTile: generates tile (tx, ty) into a fresh zeroed raster shaped by
      the tile sample model. */
  method GetTile(cr: CompositeRed, tx: int, ty: int, ops: PixelOps) returns (out: Buffer)
    requires cr.Valid()
    ensures out.bounds == TileRect(cr, tx, ty) && out.bands == cr.sm.numBands
    ensures forall p :: out.bounds.Contains(p) ==> out.at(p) == PixelAt(cr, cr.sm.numBands, ops, p)
  {
    var bands := cr.sm.numBands;
    var wr := Buffer(TileRect(cr, tx, ty), bands, _ => ZeroPixel(bands));
    out := GenRect(cr, wr, ops);
  }

  /** The index of the tile column (or row) holding coordinate v. */
  function TileIndex(v: int, origin: int, size: int): int
    requires size > 0
  {
    (v - origin) / size
  }

  /** Every point lies in the tile TileIndex names. */
  lemma TileHoldsPoint(cr: CompositeRed, p: Point)
    requires cr.sm.width > 0 && cr.sm.height > 0
    ensures TileRect(cr, TileIndex(p.x, cr.tileGridXOff, cr.sm.width),
                         TileIndex(p.y, cr.tileGridYOff, cr.sm.height)).Contains(p)
  {
  }

  /** A point of a rectangle generated by copyData, fetched instead from
      the tile holding it: the tile exists, and the two agree there and at
      every other point they share. */
  method TileAgreesWithCopyData(cr: CompositeRed, wr: Buffer, ops: PixelOps, p: Point)
    returns (tile: Buffer, copy: Buffer)
    requires cr.Valid() && cr.sm.width > 0 && cr.sm.height > 0
    requires wr.bands == cr.sm.numBands && wr.bounds.Contains(p)
    ensures copy.bounds == wr.bounds
    ensures forall q :: wr.bounds.Contains(q) ==> copy.at(q) == PixelAt(cr, wr.bands, ops, q)
    ensures tile.bounds == TileRect(cr, TileIndex(p.x, cr.tileGridXOff, cr.sm.width),
                                        TileIndex(p.y, cr.tileGridYOff, cr.sm.height))
            && tile.bands == cr.sm.numBands
    ensures forall q :: tile.bounds.Contains(q) ==> tile.at(q) == PixelAt(cr, tile.bands, ops, q)
    ensures tile.bounds.Contains(p) && tile.at(p) == copy.at(p)
    ensures forall q :: tile.bounds.Contains(q) && wr.bounds.Contains(q) ==> tile.at(q) == copy.at(q)
  {
    copy := CopyData(cr, wr, ops);
    TileHoldsPoint(cr, p);
    tile := GetTile(cr, TileIndex(p.x, cr.tileGridXOff, cr.sm.width),
                    TileIndex(p.y, cr.tileGridYOff, cr.sm.height), ops);
  }
}
