# Batik compositing core and animated boolean attribute, in Dafny

This project models three pieces of Apache Batik.

- **CompositeRed** is the tiled raster that composites an ordered list of
  sources under one composite rule. Its constructor works out:
  - the result bounds, from the rule;
  - zero-padding of every source to those bounds, under ARITHMETIC;
  - a tile grid aligned to 256 pixels;
  - a tile size clamped to the bounds;
  - a result colour model widened to carry alpha.

  `genRect` produces any requested rectangle on demand. `copyData` and
  `getTile` both delegate to it.
- **CompositeRable8Bit** is the resolution-independent composition node. It
  holds the sources, the rule and the working colour space (linear RGB or
  sRGB), and offers a direct-draw shortcut (`paintRable`). `createRendering`
  renders every source, applies the rule's policy for blank sources and
  builds a CompositeRed.
- **SVGOMAnimatedBoolean** mirrors a boolean attribute in two parts:
  - a lazily read, cached base value;
  - an optional animated value.

  Attribute-mutation callbacks keep the cache in step with the element.

The modules are:

| file | contents |
|---|---|
| `wrappers.dfy` | `Option` and `Result` |
| `geometry.dfy` | `java.awt.Rectangle`: containment, `intersects`, `intersection`, `union` |
| `int32.dfy` | 32-bit two's-complement `&`, `<<`, `>>` |
| `rules.dfy` | the composite rules |
| `images.dfy` | colour/sample models, rasters, `PadRed`, `FloodRed` |
| `bounds_algebra.dfy` | the constructor's bounds fold |
| `composite_red.dfy` | CompositeRed |
| `composite_rable.dfy` | CompositeRable8Bit |
| `animated_boolean.dfy` | SVGOMAnimatedBoolean |

Modelling choices:

- **Pixels.** A pixel is a sequence of samples, and a raster maps points to
  pixels. The per-pixel blend of a composite context and the conversion to
  premultiplied alpha are function parameters (`PixelOps`). So are the
  colour-space converters and the flood placeholder's models
  (`Conversions`). The region
  discipline of `genRect`, and the fact that tiles and `copyData` agree, are
  proved for every choice of them.
- **Java ints.** `x & 0xFFFFFF00` is computed bit by bit on the 32-bit
  two's-complement pattern. It is proved equal to rounding down to a
  multiple of 256 for every Java int, negative ones included. `0xFF << 24`
  wraps to a negative int, as in Java.
- **Animated boolean.** The object is a value, not a class. Each operation
  returns the new state: the object's fields, the element's attribute map,
  and the log of listener firings. The element's `setAttributeNS` and
  `removeAttributeNS` are written out (`SetAttribute`, `RemoveAttribute`).
  They store first, then deliver the matching callback when the attribute
  is the object's own. The element class is not part of this model; this is
  how it behaves towards its live attribute values.

## Model

| member | source | states |
|---|---|---|
| Geometry.IntersectsIffSharedPoint | sources/org/apache/batik/ext/awt/image/rendered/CompositeRed.java:82 | two rectangles intersect exactly when some point lies in both |
| Geometry.Intersection | sources/org/apache/batik/ext/awt/image/rendered/CompositeRed.java:83 | for intersecting rectangles, the result holds exactly the points in both, has area, and lies inside each |
| Geometry.Union | sources/org/apache/batik/ext/awt/image/rendered/CompositeRed.java:94 | the result encloses both rectangles, and every rectangle enclosing both encloses it |
| Int32.AlignDownIsFloor | sources/org/apache/batik/ext/awt/image/rendered/CompositeRed.java:126-127 | for every 32-bit int x, `x & 0xFFFFFF00` (bitwise, two's complement) equals x rounded down to a multiple of 256 |
| Int32.AndLowZeros | sources/org/apache/batik/ext/awt/image/rendered/CompositeRed.java:126 | AND with a mask whose low k bits are zero clears the low k bits |
| Int32.AndAllOnes | sources/org/apache/batik/ext/awt/image/rendered/CompositeRed.java:126 | AND with a mask of n one-bits keeps exactly the low n bits of the other operand |
| Int32.ClearLowByte | sources/org/apache/batik/ext/awt/image/rendered/CompositeRed.java:126 | on the unsigned 32-bit pattern, AND with 0xFFFFFF00 subtracts the low byte |
| BoundsAlgebra.CombineBounds | sources/org/apache/batik/ext/awt/image/rendered/CompositeRed.java:66-96 | under OUT the result is the last source's bounds; under every rule other than IN and OUT each source's bounds lie inside the result; Java-int origins stay Java ints |
| BoundsAlgebra.UnionIsLeastCover | sources/org/apache/batik/ext/awt/image/rendered/CompositeRed.java:93-94 | under a union rule, any rectangle enclosing every source encloses the result, so the result is the least enclosing rectangle |
| BoundsAlgebra.InIsIntersection | sources/org/apache/batik/ext/awt/image/rendered/CompositeRed.java:81-88 | under IN a point lies in the result exactly when it lies in every source's bounds |
| BoundsAlgebra.InCollapsePersists | sources/org/apache/batik/ext/awt/image/rendered/CompositeRed.java:84-87 | under IN, once the running bounds collapse to zero width and height they stay collapsed for all later sources |
| BoundsAlgebra.InAreaOrCollapsed | sources/org/apache/batik/ext/awt/image/rendered/CompositeRed.java:81-88 | under IN with two or more sources the result either has area or is exactly zero by zero |
| Composite.TileGridOrigin | sources/org/apache/batik/ext/awt/image/rendered/CompositeRed.java:125-127 | the tile-grid origin is a multiple of 256 at or below the coordinate and less than 256 below it, negative coordinates included |
| Composite.FixSampleModel | sources/org/apache/batik/ext/awt/image/rendered/CompositeRed.java:248-268 | the tile width is min(max(source width, 256), right edge minus grid origin), stated as bounds and attainment; height likewise; band count kept |
| Composite.MaskBytes | sources/org/apache/batik/ext/awt/image/rendered/CompositeRed.java:284-287 | `0xFF0000 >> 8i` selects byte 2-i, and `0xFF << 8n` selects byte n as a 32-bit pattern |
| Composite.FixColorModel | sources/org/apache/batik/ext/awt/image/rendered/CompositeRed.java:270-293 | an alpha model is kept and made premultiplied; without alpha, more than four bands in all fails; otherwise a premultiplied packed-int model of 8(n+1) bits with the colour masks in bytes 2, 1, 0 and alpha in byte n |
| Composite.AlphaSharesByteOnlyForTwoBands | sources/org/apache/batik/ext/awt/image/rendered/CompositeRed.java:284-292 | the widened alpha mask equals a colour mask exactly when the source has two bands, and then it equals the first |
| Composite.PadAll | sources/org/apache/batik/ext/awt/image/rendered/CompositeRed.java:102-117 | same length and order; every source ends up with the unified bounds; a source already matching is kept as it is; pixels inside a source's own bounds are unchanged, and the padded points outside them are zero |
| Composite.Assemble | sources/org/apache/batik/ext/awt/image/rendered/CompositeRed.java:61-130 | one operator context per source built from the source's and the result's colour model; bounds from the bounds fold; tile model from the first source; grid origins aligned; under ARITHMETIC the stored sources are exactly the sources zero-padded to the result bounds, otherwise the sources as given |
| Composite.NewCompositeRed | sources/org/apache/batik/ext/awt/image/rendered/CompositeRed.java:54-131 | fails on no sources, and fails with the band count exactly when the first source has no alpha and more than three bands; otherwise it is the assembled raster around the fixed colour model |
| Composite.EmptyRect | sources/org/apache/batik/ext/awt/image/rendered/CompositeRed.java:149-153 | every pixel of the target becomes zero, and the target's bounds are kept |
| Composite.BaseStep | sources/org/apache/batik/ext/awt/image/rendered/CompositeRed.java:165-179 | after the first source, each target point holds the source's pixel inside its bounds and zero outside, premultiplied, whatever the target held before |
| Composite.ComposeStep | sources/org/apache/batik/ext/awt/image/rendered/CompositeRed.java:180-190 | a later source changes only target points inside its bounds, where the result is the blend of source and target; a disjoint source changes nothing |
| Composite.GenRect | sources/org/apache/batik/ext/awt/image/rendered/CompositeRed.java:155-197 | every point of the target ends up holding the point's composite value (the base value blended with each later source covering the point, in order) |
| Composite.CopyData | sources/org/apache/batik/ext/awt/image/rendered/CompositeRed.java:133-137 | a caller-positioned rectangle receives the composite value at each of its points |
| Composite.GetTile | sources/org/apache/batik/ext/awt/image/rendered/CompositeRed.java:139-147 | a tile, generated into a fresh raster of the tile sample model's band count, holds the composite value at each of its points |
| Composite.TileHoldsPoint | sources/org/apache/batik/ext/awt/image/rendered/CompositeRed.java:140-141 | every point lies in the tile whose index is its offset from the grid origin divided by the tile size |
| Composite.TileAgreesWithCopyData | sources/org/apache/batik/ext/awt/image/rendered/CompositeRed.java:133-147 | copyData fills the caller's rectangle with the composite value; getTile of the tile indexed by a point's offset from the grid gives that tile's rectangle, holding the point, with the composite value; so the two agree at every point they share |
| CompositeRable.NewNode | sources/org/apache/batik/ext/awt/image/renderable/CompositeRable8Bit.java:50-61 | the working space is linear RGB exactly when the linear flag is set, and sRGB otherwise |
| CompositeRable.SetCompositeRule | sources/org/apache/batik/ext/awt/image/renderable/CompositeRable8Bit.java:75-86 | as written: the node is touched but its rule is unchanged |
| CompositeRable.SetCompositeRuleIsIgnored | sources/org/apache/batik/ext/awt/image/renderable/CompositeRable8Bit.java:75-78 | a node built with OVER still reports OVER after being set to IN; the corrected setter reports IN |
| CompositeRable.SetCompositeRuleIntended | sources/org/apache/batik/ext/awt/image/renderable/CompositeRable8Bit.java:71-78 | the corrected setter: touched, and the rule read back is the argument |
| CompositeRable.SetCompositeColorSpace | sources/org/apache/batik/ext/awt/image/renderable/CompositeRable8Bit.java:92-102 | always touches; accepts exactly linear RGB and sRGB, storing the space and the matching flag; refuses any other space, leaving space and flag unchanged; keeps space and flag in agreement |
| CompositeRable.PaintRable | sources/org/apache/batik/ext/awt/image/renderable/CompositeRable8Bit.java:122-145 | paints exactly when the surface composite equals SVG OVER (an SVG composite with rule OVER, or AlphaComposite.SrcOver), the rule is OVER and the surface space exists and equals the working space; when it paints it draws every source once, in order; otherwise nothing |
| CompositeRable.Normalize | sources/org/apache/batik/ext/awt/image/renderable/CompositeRable8Bit.java:182-187 | the converted image is in the working space with the same bounds; an image already in the working space is unchanged |
| CompositeRable.Flood | sources/org/apache/batik/ext/awt/image/renderable/CompositeRable8Bit.java:206-207 | the placeholder for a blank source covers exactly the device rectangle and is zero at every point |
| CompositeRable.Accumulate | sources/org/apache/batik/ext/awt/image/renderable/CompositeRable8Bit.java:173-216 | only IN can abort the source loop, and the accumulated sources keep Java-int origins |
| CompositeRable.StartAfterLastBlank | sources/org/apache/batik/ext/awt/image/renderable/CompositeRable8Bit.java:200-204 | the position after the last blank source: everything from it on is rendered, and the slot before it is blank |
| CompositeRable.AbortPersists | sources/org/apache/batik/ext/awt/image/renderable/CompositeRable8Bit.java:195-198 | once the loop has returned no rendering, later sources cannot change that |
| CompositeRable.InBlankKills | sources/org/apache/batik/ext/awt/image/renderable/CompositeRable8Bit.java:194-198 | under IN the loop gives no rendering exactly when some source is blank; with no blank every converted rendering is kept in order |
| CompositeRable.OutKeepsAfterLastBlank | sources/org/apache/batik/ext/awt/image/renderable/CompositeRable8Bit.java:200-204 | under OUT the accumulated list is the converted renderings after the last blank source, in order |
| CompositeRable.ArithmeticKeepsEverySlot | sources/org/apache/batik/ext/awt/image/renderable/CompositeRable8Bit.java:206-208 | under ARITHMETIC there is one entry per source, in place: the converted rendering, or a transparent flood over the device rectangle for a blank |
| CompositeRable.OtherRulesSkipBlanks | sources/org/apache/batik/ext/awt/image/renderable/CompositeRable8Bit.java:210-213 | under OVER and the other rules, blanks are dropped and the converted renderings keep their order |
| CompositeRable.Outcomes | sources/org/apache/batik/ext/awt/image/renderable/CompositeRable8Bit.java:173-179 | each source is rendered, in order, under the same narrowed area of interest |
| CompositeRable.CreateRendering | sources/org/apache/batik/ext/awt/image/renderable/CompositeRable8Bit.java:147-223 | no rendering for no sources or a disjoint area of interest; otherwise the loop computes the fold above, gives no rendering exactly when it aborts or leaves nothing, and builds the composite raster from the list with the node's rule |
| AnimatedBoolean.New | batik-anim/src/main/java/org/apache/batik/anim/dom/SVGOMAnimatedBoolean.java:70-76 | a fresh object keeps the default, has no animated value, and is consistent with its element |
| AnimatedBoolean.BoolToString | batik-anim/src/main/java/org/apache/batik/anim/dom/SVGOMAnimatedBoolean.java:109-110 | the written text is "true" or "false", and it is "true" exactly for true |
| AnimatedBoolean.Update | batik-anim/src/main/java/org/apache/batik/anim/dom/SVGOMAnimatedBoolean.java:91-99 | the cache becomes valid and agrees with the attribute: exact "true" is true, any other text false, absent the default; nothing else changes |
| AnimatedBoolean.GetBaseVal | batik-anim/src/main/java/org/apache/batik/anim/dom/SVGOMAnimatedBoolean.java:81-86 | a valid cache is returned without any change; otherwise the attribute is read and only the cache fields change; with a sound cache the value is the attribute's meaning |
| AnimatedBoolean.GetBaseValSettles | batik-anim/src/main/java/org/apache/batik/anim/dom/SVGOMAnimatedBoolean.java:81-86 | reading twice gives the same value and the second read changes nothing |
| AnimatedBoolean.OnAttrChange | batik-anim/src/main/java/org/apache/batik/anim/dom/SVGOMAnimatedBoolean.java:161-195 | the cache stays valid only if it was valid and the object is writing its own attribute; base listeners fire once, animated listeners once when there is no animated value |
| AnimatedBoolean.ExternalChangeIsSeen | batik-anim/src/main/java/org/apache/batik/anim/dom/SVGOMAnimatedBoolean.java:161-195 | after any other party sets or removes an attribute, the object is still consistent and its next base-value read returns the attribute's new meaning |
| AnimatedBoolean.SetBaseVal | batik-anim/src/main/java/org/apache/batik/anim/dom/SVGOMAnimatedBoolean.java:104-114 | the base value reads back as the argument, the writing flag is cleared and no other field of the object changes; an accepted write stores "true"/"false", fires the listeners of its own callback and keeps the cache consistent; a refused write raises and leaves the attributes and log alone |
| AnimatedBoolean.RefusedSetBaseValDesynchronises | batik-anim/src/main/java/org/apache/batik/anim/dom/SVGOMAnimatedBoolean.java:105-113 | on an element that refuses the write, the as-written setter leaves a cache that reads true while the attribute says false |
| AnimatedBoolean.SetBaseValIntended | batik-anim/src/main/java/org/apache/batik/anim/dom/SVGOMAnimatedBoolean.java:104-114 | the corrected setter: an accepted write as before, a refused write changes nothing, and consistency is always kept |
| AnimatedBoolean.SetBaseValRoundTrip | batik-anim/src/main/java/org/apache/batik/anim/dom/SVGOMAnimatedBoolean.java:96-110 | the text setBaseVal stores parses back, through update, to the value written |
| AnimatedBoolean.GetAnimVal | batik-anim/src/main/java/org/apache/batik/anim/dom/SVGOMAnimatedBoolean.java:119-127 | the animated value while there is one, otherwise exactly what getBaseVal gives |
| AnimatedBoolean.SetAnimatedValue | batik-anim/src/main/java/org/apache/batik/anim/dom/SVGOMAnimatedBoolean.java:132-136 | sets the animated value, which getAnimVal then returns; fires the animated listeners once; leaves the cache alone |
| AnimatedBoolean.UpdateAnimatedValue | batik-anim/src/main/java/org/apache/batik/anim/dom/SVGOMAnimatedBoolean.java:141-149 | a value is installed and read back; none removes the animated value, keeping its last value, so reads fall back to the base value; no other field changes; animated listeners fire once |
| AnimatedBoolean.AnimatedValueOverridesBase | batik-anim/src/main/java/org/apache/batik/anim/dom/SVGOMAnimatedBoolean.java:119-122 | while an animated value is set, neither an attribute write nor a base-value write changes what getAnimVal returns |

## Left out

- Integer overflow of right and bottom edges (`x + width`) and of tile
  positions is not modelled: coordinates are unbounded integers. Only the
  tile-grid mask is computed on 32-bit patterns.
- Rectangles have non-negative width and height. All bounds here come from
  rasters. So the negative-size branches of `java.awt.Rectangle.union` and
  `intersection` never arise.
- Composite.FixSampleModel: a zero tile width (bounds ending at the grid
  origin) is accepted. In Java, `createCompatibleSampleModel` would throw.
- Composite.NewCompositeRed: the empty source list is the `NoSource` error.
  In Java, `srcs.get(0)` throws before the explicit "must have some source"
  check is reached.
- Composite.NewCompositeRed requires source origins that are Java ints. The
  constructor receives them as `int` fields.
- The contexts come from `SVGComposite.createContext` (not part of this
  model). Each context is recorded as the rule and the two colour models,
  and blending goes through the `PixelOps.blend` parameter.
- `GraphicsUtil.coerceData` and `coerceColorModel` are a parameter and a
  relabeling. `coerceData` is `PixelOps.premultiply`, and
  `coerceColorModel(cm, true)` sets the premultiplied flag. Their
  floating-point arithmetic is not modelled.
- CompositeRable.Normalize: `GraphicsUtil.convertToLsRGB` and
  `convertTosRGB` (not part of this model) are given as `Conversions`:
  - the converted colour model and sample model are parameters;
  - the pixel recoding is a parameter.

  The model promises only that the converted image keeps its bounds and is
  in the working space. It assumes an image already in the working space
  is passed through unchanged. So it does not say how many bands a
  converted image has, nor whether it is premultiplied. That decides
  whether CompositeRed accepts it and whether genRect premultiplies it.
- `emptyRect` zeroes every band of the target (`PadRed.ZeroRecter`
  internals are not part of this model). `PadRed` is modelled by its bounds
  and zero fill. `FloodRed` is modelled by its bounds and zero fill, and
  its colour and sample models are the `Conversions.floodCm` and
  `floodSm` parameters.
- Composite.NewCompositeRed: the `DirectColorModel` constructor's own
  checks of its arguments are not modelled. These are Java2D internals,
  such as a mask that does not fit the pixel width, or a colour space that
  is not RGB. Where Java would throw there, the model succeeds.
- Rasters created from a sample model start zeroed. `Raster.createWritableRaster`
  gives a zero-filled buffer.
- `genRect_OVER` (CompositeRed.java:202-241) is an unused alternative built
  on Java2D drawing.
- The area of interest and the node's bounds (`getBounds2D()`) are integer
  rectangles given as inputs. The early exit and the narrowing use integer
  `Intersects`/`Intersection`, not double-precision
  `Rectangle2D.intersects`/`intersect`. The affine transform is not
  modelled: `devRect` is an input. The area of interest is assumed
  non-null, since a null one makes Java throw at `getBounds2D()` before its
  own null test.
- Rendering hints and the transform carried into the new RenderContext are
  not modelled.
- CompositeRable.PaintRable: `SVGComposite` is not part of this model. Its
  `equals`, as Batik writes it, accepts an SVG composite with the same rule.
  For OVER it also accepts the shared `AlphaComposite.SrcOver` instance.
  The surface composite is one of those two, or any other composite.
  `GraphicsUtil.drawImage` is modelled as appending the source to the list
  of drawn sources.
- `setSources` and the `AbstractRable` machinery behind `getSources`,
  `init` and `touch` are not modelled, except that `touch` advances a
  modification stamp.
- `getUnderlyingValue` (SVGOMAnimatedBoolean.java:154-156) only wraps
  `getBaseVal` in an animation value object.
- Listener dispatch itself is not modelled. The `AbstractSVGAnimatedValue`
  listener lists are reduced to the log of which group fired.
- The animated boolean covers one attribute at a time. Writes to other
  attributes change the attribute map only.
- Thread safety and rendering caches are not modelled.

## Findings

| source | as written | input that shows it | evidently intended | confidence | as-written member | corrected member |
|---|---|---|---|---|---|---|
| sources/org/apache/batik/ext/awt/image/renderable/CompositeRable8Bit.java:75-78 | `this.rule = rule;` assigns the field to itself; the parameter `cr` is unused | a node built with OVER, then `setCompositeRule(IN)`: `getCompositeRule()` still returns OVER | `this.rule = cr;` | high; not executed | CompositeRable.SetCompositeRule (shown by CompositeRable.SetCompositeRuleIsIgnored) | CompositeRable.SetCompositeRuleIntended |
| batik-anim/src/main/java/org/apache/batik/anim/dom/SVGOMAnimatedBoolean.java:104-114 | the cache is set to the new value and marked valid before `setAttributeNS`; when that throws, only `changing` is reset | attribute "false" on an element that refuses modification, then `setBaseVal(true)`: it throws, yet `getBaseVal()` returns true while the attribute still says "false" | a refused write leaves the base value as it was | medium; not executed | AnimatedBoolean.SetBaseVal (shown by AnimatedBoolean.RefusedSetBaseValDesynchronises) | AnimatedBoolean.SetBaseValIntended |
