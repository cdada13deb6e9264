/**
 * What the preview does to the svg snippet it has to render: parse the cache key, check
 * the root's namespace, merge the presets, the root's own attributes and the size fitted
 * to the configured preview size, rebuild the text and turn it into a base64 data URL.
 */
module SvgRoot {
  import opened Wrappers
  import opened XmlTree
  import opened Encoding
  import opened PresentationAttributes

  const SvgNamespace := "http://www.w3.org/2000/svg"
  const SvgMime := "image/svg+xml"

  /** `Number(v) || undefined`: missing, `NaN` and zero all count as no dimension. */
  function Dimension(lib: XmlLibrary, v: Option<Value>): Option<real> {
    match ToNumber(lib, v)
    case None => None
    case Some(n) => if n == 0.0 then None else Some(n)
  }

  /**
   * The preview's width and height: a square of `size` when either dimension is missing,
   * otherwise the larger side scaled to `size` and the other in proportion.
   */
  function FitToSize(size: real, width: Option<real>, height: Option<real>): (r: (real, real))
    requires width.Some? ==> width.value != 0.0
    requires height.Some? ==> height.value != 0.0
  {
    if width.None? || height.None? then (size, size)
    else
      var w, h := width.value, height.value;
      if w < h then (w / h * size, size) else (size, h / w * size)
  }

  /** With both dimensions present the fitted size keeps the aspect ratio. */
  lemma FitKeepsAspectRatio(size: real, w: real, h: real)
    requires w != 0.0 && h != 0.0
    ensures var r := FitToSize(size, Some(w), Some(h)); r.0 * h == r.1 * w
  {
    if w < h {
      assert w / h * size * h == w * size;
    } else {
      assert h / w * size * w == h * size;
    }
  }

  /** For positive dimensions the larger side is exactly `size` and the smaller one no more. */
  lemma FitBoundsLargerSide(size: real, w: real, h: real)
    requires size > 0.0 && w > 0.0 && h > 0.0
    ensures var r := FitToSize(size, Some(w), Some(h));
      && 0.0 < r.0 <= size && 0.0 < r.1 <= size
      && (r.0 == size || r.1 == size)
      && (w >= h ==> r.0 == size) && (w <= h ==> r.1 == size)
  {
    if w < h {
      ProperFraction(w, h, size);
    } else {
      ProperFraction(h, w, size);
    }
  }

  lemma ProperFraction(a: real, b: real, size: real)
    requires 0.0 < a <= b && size > 0.0
    ensures 0.0 < a / b * size <= size
  {
    var q := a / b;
    assert q * b == a;
    assert q <= 1.0;
    assert q * size <= 1.0 * size;
  }

  /** A 100 by 25 image previewed at 50 becomes 50 by 12.5. */
  lemma FitExample()
    ensures FitToSize(50.0, Some(100.0), Some(25.0)) == (50.0, 12.5)
    ensures FitToSize(50.0, None, Some(25.0)) == (50.0, 50.0)
  {
  }

  /** `{ $$width, $$height }` when a preview size is configured (`this.size` is truthy). */
  function SizeAttributes(lib: XmlLibrary, size: Option<real>, attrs: Attributes): (r: Attributes)
    ensures size.None? || size.value == 0.0 <==> r == []
    ensures r != [] ==> Names(r) == ["width", "height"]
  {
    if size.None? || size.value == 0.0 then []
    else
      var fitted := FitToSize(size.value, Dimension(lib, Get(attrs, "width")), Dimension(lib, Get(attrs, "height")));
      [("width", Number(fitted.0)), ("height", Number(fitted.1))]
  }

  /**
   * A root whose `width` or `height` is missing, not a number or zero is previewed as a
   * square of the configured size.
   */
  lemma SizeSquareFallback(lib: XmlLibrary, size: Option<real>, attrs: Attributes)
    requires size.Some? && size.value != 0.0
    requires || ToNumber(lib, Get(attrs, "width")) in {None, Some(0.0)}
             || ToNumber(lib, Get(attrs, "height")) in {None, Some(0.0)}
    ensures SizeAttributes(lib, size, attrs) == [("width", Number(size.value)), ("height", Number(size.value))]
  {
  }

  /**
   * A root with a non-zero numeric `width` and `height` is previewed with its larger side
   * at the configured size and the other side in proportion.
   */
  lemma SizeFitted(lib: XmlLibrary, size: Option<real>, attrs: Attributes, w: real, h: real)
    requires size.Some? && size.value != 0.0
    requires ToNumber(lib, Get(attrs, "width")) == Some(w) && w != 0.0
    requires ToNumber(lib, Get(attrs, "height")) == Some(h) && h != 0.0
    ensures SizeAttributes(lib, size, attrs) ==
      [("width", Number(FitToSize(size.value, Some(w), Some(h)).0)),
       ("height", Number(FitToSize(size.value, Some(w), Some(h)).1))]
  {
    assert Dimension(lib, Get(attrs, "width")) == Some(w);
    assert Dimension(lib, Get(attrs, "height")) == Some(h);
  }

  /** `{ ...preset, ...attrs, ...size }` */
  function Merge(preset: Attributes, attrs: Attributes, sizing: Attributes): Attributes {
    Spread(Spread(Spread([], preset), attrs), sizing)
  }

  /** The fitted size wins over the root's own attributes, which win over the presets. */
  lemma MergePrecedence(preset: Attributes, attrs: Attributes, sizing: Attributes, name: string)
    ensures Get(Merge(preset, attrs, sizing), name) ==
      if Get(sizing, name).Some? then Get(sizing, name)
      else if Get(attrs, name).Some? then Get(attrs, name)
      else Get(preset, name)
  {
    SpreadGet([], preset, name);
    SpreadGet(Spread([], preset), attrs, name);
    SpreadGet(Spread(Spread([], preset), attrs), sizing, name);
  }

  /** The presets come first, then the root's other attributes in their order, then the size. */
  lemma MergeOrder(preset: Attributes, attrs: Attributes, sizing: Attributes)
    ensures |preset| <= |Merge(preset, attrs, sizing)|
    ensures Names(Merge(preset, attrs, sizing))[..|preset|] == Names(preset)
    ensures forall n :: n in Names(Merge(preset, attrs, sizing)) <==>
      n in Names(preset) || n in Names(attrs) || n in Names(sizing)
  {
    assert Spread([], preset) == preset by { SpreadOntoEmpty(preset); }
    SpreadKeepsOrder(preset, attrs);
    SpreadKeepsOrder(Spread(preset, attrs), sizing);
    SpreadNames(preset, attrs);
    SpreadNames(Spread(preset, attrs), sizing);
    var m := Spread(preset, attrs);
    assert Names(Spread(m, sizing))[..|preset|] == Names(Spread(m, sizing))[..|m|][..|preset|];
  }

  lemma {:induction false} SpreadOntoEmpty(a: Attributes)
    ensures Spread([], a) == a
  {
    SpreadOnto(a, |a|);
  }

  /** Copying a property list onto an empty object, one property after another, copies it. */
  lemma {:induction false} SpreadOnto(a: Attributes, k: nat)
    requires k <= |a|
    ensures Spread(a[..|a| - k], a[|a| - k..]) == a
    decreases k
  {
    if k > 0 {
      var done: Attributes := a[..|a| - k];
      var rest: Attributes := a[|a| - k..];
      assert a[|a| - k].0 !in Names(done);
      assert Put(done, rest[0].0, rest[0].1) == a[..|a| - k + 1];
      assert rest[1..] == a[|a| - (k - 1)..];
      SpreadOnto(a, k - 1);
    } else {
      assert a[..|a|] == a;
    }
  }

  /** The root's attributes when the parsed snippet is an svg-namespace element. */
  function RootAttributes(nodes: seq<Node>): (r: Option<Attributes>)
    ensures r.Some? ==> |nodes| > 0 && nodes[0].Element? && nodes[0].attributes == r
    ensures r.Some? ==> Get(r.value, "xmlns") == Some(Text(SvgNamespace))
  {
    if |nodes| == 0 || !nodes[0].Element? || nodes[0].attributes.None? then None
    else if Get(nodes[0].attributes.value, "xmlns") != Some(Text(SvgNamespace)) then None
    else nodes[0].attributes
  }

  /** The tree to build: the parsed nodes with the root's attributes replaced by the merge. */
  function Rebuilt(lib: XmlLibrary, preset: Attributes, size: Option<real>, key: string): (r: Option<seq<Node>>)
    ensures r.Some? ==> lib.parse(key).Some? && RootAttributes(lib.parse(key).value).Some?
    ensures r.Some? ==>
      var nodes, attrs := lib.parse(key).value, RootAttributes(lib.parse(key).value).value;
      && |r.value| == |nodes| && r.value[1..] == nodes[1..]
      && r.value[0] == nodes[0].(attributes := Some(Merge(preset, attrs, SizeAttributes(lib, size, attrs))))
  {
    match lib.parse(key)
    case None => None
    case Some(nodes) =>
      match RootAttributes(nodes)
      case None => None
      case Some(attrs) =>
        var root := nodes[0].(attributes := Some(Merge(preset, attrs, SizeAttributes(lib, size, attrs))));
        Some([root] + nodes[1..])
  }

  /** The data URL of an svg snippet's key, or `None` where the preview gives up on it. */
  function Render(lib: XmlLibrary, preset: Attributes, size: Option<real>, key: string): Option<string> {
    match Rebuilt(lib, preset, size, key)
    case None => None
    case Some(tree) => Some(DataUrl(SvgMime, Utf8Encode(lib.build(tree))))
  }

  /**
   * A snippet renders exactly when it parses, its first node is an element with attributes,
   * and `xmlns` among them is the text of the SVG namespace.
   */
  lemma RenderSucceedsIff(lib: XmlLibrary, preset: Attributes, size: Option<real>, key: string)
    ensures Render(lib, preset, size, key).Some? <==>
      && lib.parse(key).Some? && |lib.parse(key).value| > 0
      && lib.parse(key).value[0].Element? && lib.parse(key).value[0].attributes.Some?
      && Get(lib.parse(key).value[0].attributes.value, "xmlns") == Some(Text(SvgNamespace))
  {
  }

  /** The URL is an svg data URL whose payload decodes to the UTF-8 of the built text. */
  lemma RenderDecodes(lib: XmlLibrary, preset: Attributes, size: Option<real>, key: string)
    requires Render(lib, preset, size, key).Some?
    ensures var url := Render(lib, preset, size, key).value;
      var start := |DataScheme| + |SvgMime| + |Base64Marker|;
      && url[..start] == DataScheme + SvgMime + Base64Marker
      && Base64Decode(url[start..]).Some?
      && Utf8Decode(Base64Decode(url[start..]).value) == Some(lib.build(Rebuilt(lib, preset, size, key).value))
  {
    var text := lib.build(Rebuilt(lib, preset, size, key).value);
    var url := DataUrl(SvgMime, Utf8Encode(text));
    DataUrlRoundTrip(SvgMime, Utf8Encode(text));
    Utf8RoundTrip(text);
    assert url[..|DataScheme| + |SvgMime| + |Base64Marker|] == DataScheme + SvgMime + Base64Marker;
  }

  /**
   * With presets that are all presentation attributes, the rebuilt root's namespace is the
   * root's own, and its width and height are the fitted size when one is configured and
   * otherwise the root's own.
   */
  lemma RebuiltRootAttributes(lib: XmlLibrary, preset: Attributes, size: Option<real>, key: string)
    requires forall n :: n in Names(preset) ==> IsSvgPresentationAttribute(n)
    requires Rebuilt(lib, preset, size, key).Some?
    ensures var attrs := RootAttributes(lib.parse(key).value).value;
      var merged := Rebuilt(lib, preset, size, key).value[0].attributes.value;
      var sizing := SizeAttributes(lib, size, attrs);
      && Get(merged, "xmlns") == Some(Text(SvgNamespace))
      && Get(merged, "width") == (if sizing != [] then Get(sizing, "width") else Get(attrs, "width"))
      && Get(merged, "height") == (if sizing != [] then Get(sizing, "height") else Get(attrs, "height"))
  {
    var attrs := RootAttributes(lib.parse(key).value).value;
    var sizing := SizeAttributes(lib, size, attrs);
    SizingAndNamespaceExcluded();
    MergePrecedence(preset, attrs, sizing, "xmlns");
    MergePrecedence(preset, attrs, sizing, "width");
    MergePrecedence(preset, attrs, sizing, "height");
    if sizing != [] {
      assert "xmlns" !in Names(sizing);
    }
  }
}
