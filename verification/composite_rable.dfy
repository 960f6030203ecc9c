/** CompositeRable8Bit: the resolution-independent composition node. It holds
    the ordered sources, the rule and the working colour space, offers a
    direct-draw shortcut, and builds a CompositeRed for a render request. */
module CompositeRable {
  import opened Wrappers
  import opened Geometry
  import opened Rules
  import opened Images
  import opened BoundsAlgebra
  import opened Composite

  /** A source filter, known by identity; rendering it is a parameter. */
  datatype Filter = Filter(id: nat)

  /** The node's state. `stamp` is the modification counter that touch()
      advances so that cached renderings are rebuilt. */
  datatype Node = Node(
    srcs: seq<Filter>,
    rule: CompositeRule,
    colorspace: ColorSpace,
    csIsLinear: bool,
    stamp: nat)

  /** The working colour space and the linear flag agree, and the space is
      one of the two the node supports. */
  predicate WorkingSpaceConsistent(n: Node) {
    (n.colorspace == LinearRGB && n.csIsLinear) || (n.colorspace == SRGB && !n.csIsLinear)
  }

  /** The CompositeRable8Bit constructor. */
  function NewNode(srcs: seq<Filter>, rule: CompositeRule, csIsLinear: bool): (n: Node)
    ensures n.srcs == srcs && n.rule == rule && n.csIsLinear == csIsLinear
    ensures WorkingSpaceConsistent(n)
    ensures n.colorspace == LinearRGB <==> csIsLinear
  {
    Node(srcs, rule, if csIsLinear then LinearRGB else SRGB, csIsLinear, 0)
  }

  function Touch(n: Node): Node {
    n.(stamp := n.stamp + 1)
  }

  function GetCompositeRule(n: Node): CompositeRule {
    n.rule
  }

  function GetCompositeColorSpace(n: Node): ColorSpace {
    n.colorspace
  }

  /** setCompositeRule as written: it touches the node, then assigns the
      stored rule to itself, so the argument never takes effect. */
  function SetCompositeRule(n: Node, cr: CompositeRule): (m: Node)
    ensures m.stamp == n.stamp + 1
    ensures GetCompositeRule(m) == GetCompositeRule(n)
    ensures m.srcs == n.srcs && m.colorspace == n.colorspace && m.csIsLinear == n.csIsLinear
  {
    var touched := Touch(n);
    touched.(rule := touched.rule)
  }

  /** The rule setter as its documentation intends: the argument becomes the
      node's rule. */
  function SetCompositeRuleIntended(n: Node, cr: CompositeRule): (m: Node)
    ensures m.stamp == n.stamp + 1
    ensures GetCompositeRule(m) == cr
    ensures m.srcs == n.srcs && m.colorspace == n.colorspace && m.csIsLinear == n.csIsLinear
  {
    Touch(n).(rule := cr)
  }

  /** A node built for OVER still reports OVER after being set to IN. */
  lemma SetCompositeRuleIsIgnored()
    ensures GetCompositeRule(SetCompositeRule(NewNode([], Over, false), In)) == Over
    ensures GetCompositeRule(SetCompositeRuleIntended(NewNode([], Over, false), In)) == In
  {
  }

  /** The node after a colour-space change, and the exception if it threw. */
  datatype Attempt = Attempt(node: Node, error: Option<Error>)

  /** setCompositeColorSpace: accepts linear RGB or sRGB and refuses any
      other space after touching the node. */
  function SetCompositeColorSpace(n: Node, cs: ColorSpace): (a: Attempt)
    ensures a.node.stamp == n.stamp + 1
    ensures a.node.srcs == n.srcs && a.node.rule == n.rule
    ensures a.error.None? <==> cs == LinearRGB || cs == SRGB
    ensures a.error.None? ==> GetCompositeColorSpace(a.node) == cs && (a.node.csIsLinear <==> cs == LinearRGB)
    ensures a.error.Some? ==> a.error.value == UnsupportedColorSpace(cs)
                              && a.node.colorspace == n.colorspace && a.node.csIsLinear == n.csIsLinear
    ensures WorkingSpaceConsistent(n) ==> WorkingSpaceConsistent(a.node)
  {
    var touched := Touch(n);
    if cs == LinearRGB then Attempt(touched.(csIsLinear := true, colorspace := cs), None)
    else if cs == SRGB then Attempt(touched.(csIsLinear := false, colorspace := cs), None)
    else Attempt(touched, Some(UnsupportedColorSpace(cs)))
  }

  // ---------------------------------------------------------------------
  // Direct painting

  /** The composite installed on a Graphics2D: an SVG composite with its
      rule, the shared AlphaComposite.SrcOver instance (the Graphics2D
      default), or some other composite. */
  datatype SurfaceComposite =
    | SvgComposite(rule: CompositeRule)
    | AlphaSrcOver
    | OtherComposite(id: nat)

  /** SVGComposite.OVER.equals(c): an SVG composite with rule OVER, or
      AlphaComposite.SrcOver, which composites the same way. */
  predicate EqualsSvgOver(c: SurfaceComposite) {
    match c
    case SvgComposite(rule) => rule == Over
    case AlphaSrcOver => true
    case OtherComposite(_) => false
  }

  /** What paintRable reads of a Graphics2D: its composite and its
      destination colour space, if it has one. */
  datatype Surface = Surface(composite: SurfaceComposite, destSpace: Option<ColorSpace>)

  /** paintRable: draws the sources straight onto the surface, in order,
      when that is equivalent to compositing first; reports whether it did. */
  method PaintRable(n: Node, g: Surface) returns (painted: bool, drawn: seq<Filter>)
    ensures painted <==> (g.composite == SvgComposite(Over) || g.composite == AlphaSrcOver) && n.rule == Over
                         && g.destSpace == Some(n.colorspace)
    ensures painted ==> drawn == n.srcs
    ensures !painted ==> drawn == []
  {
    drawn := [];
    if !EqualsSvgOver(g.composite) {
      return false, drawn;
    }
    if GetCompositeRule(n) != Over {
      return false, drawn;
    }
    if g.destSpace.None? || g.destSpace.value != GetCompositeColorSpace(n) {
      return false, drawn;
    }
    var i := 0;
    while i < |n.srcs|
      invariant 0 <= i <= |n.srcs|
      invariant drawn == n.srcs[..i]
    {
      drawn := drawn + [n.srcs[i]];
      i := i + 1;
    }
    painted := true;
  }

  // ---------------------------------------------------------------------
  // Rendering

  /** The part of a RenderContext the node uses: the area of interest and
      its device-space bounding box. */
  datatype RenderContext = RenderContext(aoi: Rect, devRect: Rect)

  /** What the node needs from its collaborators: each source's rendering
      for an area of interest, and the pixel recoding between colour spaces. */
  datatype Renderer = Renderer(
    render: (Filter, Rect) -> Option<Raster>,
    conv: Conversions)

  /** The image operations GraphicsUtil and FloodRed supply: the colour
      model and sample model a converter gives an image it moves into the
      target space, the recoding of one pixel from one space to another, and
      the colour and sample models of a transparent flood. */
  datatype Conversions = Conversions(
    convertCm: (ColorSpace, ColorModel) -> ColorModel,
    convertSm: (ColorSpace, SampleModel) -> SampleModel,
    recode: (ColorSpace, ColorSpace, Pixel) -> Pixel,
    floodCm: ColorModel,
    floodSm: SampleModel)

  /** The fixed inputs of one rendering pass. */
  datatype Setting = Setting(
    linear: bool,
    devRect: Rect,
    conv: Conversions)

  datatype Rendering = NoRendering | Rendered(red: CompositeRed) | Failed(error: Error)

  function WorkingSpace(linear: bool): ColorSpace {
    if linear then LinearRGB else SRGB
  }

  /** GraphicsUtil.wrap then convertToLsRGB or convertTosRGB: the image in
      the working space with its bounds unchanged; an image already in the
      working space is returned as it is, any other is re-described by the
      converter. */
  function Normalize(ri: Raster, s: Setting): (r: Raster)
    ensures r.bounds == ri.bounds
    ensures r.cm.space == WorkingSpace(s.linear)
    ensures ri.cm.space == WorkingSpace(s.linear) ==> r == ri
  {
    var target := WorkingSpace(s.linear);
    if ri.cm.space == target then ri
    else
      var from := ri.cm.space;
      Raster(ri.bounds,
             s.conv.convertCm(target, ri.cm).(space := target),
             s.conv.convertSm(target, ri.sm),
             p => s.conv.recode(from, target, ri.pixel(p)))
  }

  /** The transparent placeholder for a blank source under ARITHMETIC. */
  function Flood(s: Setting): (r: Raster)
    ensures r.bounds == s.devRect
    ensures forall p :: r.pixel(p) == ZeroPixel(r.sm.numBands)
  {
    TransparentFlood(s.devRect, s.conv.floodCm, s.conv.floodSm)
  }

  /** One iteration of the source loop in createRendering: a rendered source
      is normalised and appended; a blank one is handled by the rule's
      policy. None means the loop returned "no rendering". */
  function AddOutcome(rule: CompositeRule, acc: seq<Raster>, o: Option<Raster>, s: Setting): Option<seq<Raster>> {
    match o
    case Some(ri) => Some(acc + [Normalize(ri, s)])
    case None =>
      match rule
      case In => None
      case Out => Some([])
      case Arithmetic(_, _, _, _) => Some(acc + [Flood(s)])
      case _ => Some(acc)
  }

  predicate OutcomesIntOrigin(outs: seq<Option<Raster>>) {
    forall i :: 0 <= i < |outs| && outs[i].Some? ==> IntOrigin(outs[i].value.bounds)
  }

  /** The source list createRendering accumulates from the sources'
      renderings `outs`, in order. */
  function Accumulate(rule: CompositeRule, outs: seq<Option<Raster>>, s: Setting): (r: Option<seq<Raster>>)
    ensures !rule.In? ==> r.Some?
    ensures OutcomesIntOrigin(outs) && IntOrigin(s.devRect) && r.Some? ==> AllIntOrigins(BoundsOf(r.value))
    decreases |outs|
  {
    if |outs| == 0 then Some([])
    else
      var prefix := outs[..|outs| - 1];
      assert forall i :: 0 <= i < |prefix| ==> prefix[i] == outs[i];
      match Accumulate(rule, prefix, s)
      case None => None
      case Some(acc) => AddOutcome(rule, acc, outs[|outs| - 1], s)
  }

  /** The normalised renderings of the non-blank sources, in order. */
  function Present(outs: seq<Option<Raster>>, s: Setting): seq<Raster>
    decreases |outs|
  {
    if |outs| == 0 then []
    else
      var last := outs[|outs| - 1];
      Present(outs[..|outs| - 1], s) + (if last.Some? then [Normalize(last.value, s)] else [])
  }

  /** The position just after the last blank source, or 0 when there is
      none. */
  function StartAfterLastBlank(outs: seq<Option<Raster>>): (k: nat)
    ensures k <= |outs|
    ensures forall i :: k <= i < |outs| ==> outs[i].Some?
    ensures k > 0 ==> outs[k - 1].None?
    decreases |outs|
  {
    if |outs| == 0 then 0
    else if outs[|outs| - 1].None? then |outs|
    else
      var prefix := outs[..|outs| - 1];
      assert forall i :: 0 <= i < |prefix| ==> prefix[i] == outs[i];
      StartAfterLastBlank(prefix)
  }

  /** Once the loop has returned "no rendering" it stays returned. */
  lemma {:induction false} AbortPersists(rule: CompositeRule, outs: seq<Option<Raster>>, k: nat, s: Setting)
    requires k <= |outs| && Accumulate(rule, outs[..k], s).None?
    ensures Accumulate(rule, outs, s).None?
    decreases |outs|
  {
    if k < |outs| {
      var prefix := outs[..|outs| - 1];
      assert prefix[..k] == outs[..k];
      AbortPersists(rule, prefix, k, s);
    } else {
      assert outs[..k] == outs;
    }
  }

  /** Under IN one blank source yields no rendering, whatever follows it;
      with no blank source every rendering is kept, in order. */
  lemma {:induction false} InBlankKills(outs: seq<Option<Raster>>, s: Setting)
    ensures Accumulate(In, outs, s).None? <==> exists i :: 0 <= i < |outs| && outs[i].None?
    ensures (forall i :: 0 <= i < |outs| ==> outs[i].Some?) ==> Accumulate(In, outs, s) == Some(Present(outs, s))
    decreases |outs|
  {
    if |outs| > 0 {
      var prefix := outs[..|outs| - 1];
      assert forall i :: 0 <= i < |prefix| ==> prefix[i] == outs[i];
      InBlankKills(prefix, s);
      if outs[|outs| - 1].Some? && exists i :: 0 <= i < |outs| && outs[i].None? {
        var i :| 0 <= i < |outs| && outs[i].None?;
        assert prefix[i].None?;
      }
    }
  }

  /** Under OUT a blank source discards everything before it: the result is
      the renderings after the last blank source, in order. */
  lemma {:induction false} OutKeepsAfterLastBlank(outs: seq<Option<Raster>>, s: Setting)
    ensures Accumulate(Out, outs, s) == Some(Present(outs[StartAfterLastBlank(outs)..], s))
    decreases |outs|
  {
    if |outs| > 0 {
      var prefix := outs[..|outs| - 1];
      var last := outs[|outs| - 1];
      OutKeepsAfterLastBlank(prefix, s);
      if last.Some? {
        var k := StartAfterLastBlank(outs);
        assert k == StartAfterLastBlank(prefix);
        var tail := outs[k..];
        assert tail[..|tail| - 1] == prefix[k..];
        assert tail[|tail| - 1] == last;
      } else {
        assert outs[|outs|..] == [];
      }
    }
  }

  /** Under ARITHMETIC there is one entry per source, in place: the
      normalised rendering, or a transparent flood over the device rectangle
      for a blank source. */
  lemma {:induction false} ArithmeticKeepsEverySlot(rule: CompositeRule, outs: seq<Option<Raster>>, s: Setting)
    requires rule.Arithmetic?
    ensures Accumulate(rule, outs, s).Some?
    ensures var acc := Accumulate(rule, outs, s).value;
            |acc| == |outs|
            && forall i :: 0 <= i < |outs| ==>
                 acc[i] == (if outs[i].Some? then Normalize(outs[i].value, s) else Flood(s))
    decreases |outs|
  {
    if |outs| > 0 {
      var prefix := outs[..|outs| - 1];
      assert forall i :: 0 <= i < |prefix| ==> prefix[i] == outs[i];
      ArithmeticKeepsEverySlot(rule, prefix, s);
    }
  }

  /** Under OVER and the remaining rules a blank source is skipped: the
      result is the non-blank renderings in order. */
  lemma {:induction false} OtherRulesSkipBlanks(rule: CompositeRule, outs: seq<Option<Raster>>, s: Setting)
    requires rule.Over? || rule.OtherRule?
    ensures Accumulate(rule, outs, s) == Some(Present(outs, s))
    decreases |outs|
  {
    if |outs| > 0 {
      var prefix := outs[..|outs| - 1];
      assert forall i :: 0 <= i < |prefix| ==> prefix[i] == outs[i];
      OtherRulesSkipBlanks(rule, prefix, s);
      var last := outs[|outs| - 1];
      assert Accumulate(rule, outs, s) == AddOutcome(rule, Present(prefix, s), last, s);
      assert Present(outs, s) == Present(prefix, s) + (if last.Some? then [Normalize(last.value, s)] else []);
      if last.None? {
        assert AddOutcome(rule, Present(prefix, s), last, s) == Some(Present(prefix, s));
        assert Present(prefix, s) + [] == Present(prefix, s);
      }
    }
  }

  /** Every source rendered under the narrowed area of interest. */
  function Outcomes(srcs: seq<Filter>, aoi: Rect, render: (Filter, Rect) -> Option<Raster>): (outs: seq<Option<Raster>>)
    ensures |outs| == |srcs|
    ensures forall i :: 0 <= i < |srcs| ==> outs[i] == render(srcs[i], aoi)
  {
    seq(|srcs|, i requires 0 <= i < |srcs| => render(srcs[i], aoi))
  }

  /** Every rendering a collaborator hands back has Java-int bounds. */
  ghost predicate RendersIntOrigins(render: (Filter, Rect) -> Option<Raster>) {
    forall f, a :: render(f, a).Some? ==> IntOrigin(render(f, a).value.bounds)
  }

  /** createRendering: no rendering for an empty node or an area of interest
      outside the node; otherwise each source is rendered under the narrowed
      area, blank sources follow the rule's policy, and a CompositeRed is
      built from what remains, if anything does. */
  method CreateRendering(n: Node, nodeBounds: Rect, rc: RenderContext, env: Renderer) returns (r: Rendering)
    requires RendersIntOrigins(env.render) && IntOrigin(rc.devRect)
    ensures |n.srcs| == 0 || !Intersects(nodeBounds, rc.aoi) ==> r == NoRendering
    ensures |n.srcs| > 0 && Intersects(nodeBounds, rc.aoi) ==>
              var acc := Accumulate(n.rule, Outcomes(n.srcs, Intersection(nodeBounds, rc.aoi), env.render),
                                    Setting(n.csIsLinear, rc.devRect, env.conv));
              (r == NoRendering <==> acc.None? || acc.value == [])
              && (r.Rendered? ==> acc.Some? && NewCompositeRed(acc.value, n.rule) == Success(r.red)
                                  && r.red.rule == n.rule)
              && (r.Failed? ==> acc.Some? && NewCompositeRed(acc.value, n.rule) == Failure(r.error))
  {
    if |n.srcs| == 0 {
      return NoRendering;
    }
    if !Intersects(nodeBounds, rc.aoi) {
      return NoRendering;
    }
    var narrowed := Intersection(nodeBounds, rc.aoi);
    ghost var outs := Outcomes(n.srcs, narrowed, env.render);
    var s := Setting(n.csIsLinear, rc.devRect, env.conv);
    var acc: seq<Raster> := [];
    var i := 0;
    assert outs[..0] == [];
    while i < |n.srcs|
      invariant 0 <= i <= |n.srcs|
      invariant Accumulate(n.rule, outs[..i], s) == Some(acc)
    {
      var ri := env.render(n.srcs[i], narrowed);
      assert outs[..i + 1][..i] == outs[..i];
      if ri.Some? {
        acc := acc + [Normalize(ri.value, s)];
      } else {
        match n.rule
        case In =>
          AbortPersists(n.rule, outs, i + 1, s);
          return NoRendering;
        case Out =>
          acc := [];
        case Arithmetic(_, _, _, _) =>
          acc := acc + [Flood(s)];
        case _ =>
      }
      i := i + 1;
    }
    assert outs[..i] == outs;
    if |acc| == 0 {
      return NoRendering;
    }
    assert OutcomesIntOrigin(outs);
    var built := NewCompositeRed(acc, n.rule);
    match built
    case Success(c) => r := Rendered(c);
    case Failure(e) => r := Failed(e);
  }
}
