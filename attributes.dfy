/** The table of SVG presentation attributes and the membership test over it. */
module PresentationAttributes {

  /*
   * The table, in its alphabetical order, split into groups of ten or five names so that the
   * facts below can be checked group by group.
   */
  const AlignmentToCursor: set<string> := {
    "alignment-baseline", "baseline-shift", "clip", "clip-path", "clip-rule",
    "color", "color-interpolation", "color-interpolation-filters", "color-rendering", "cursor"
  }
  const DToFloodOpacity: set<string> := {
    "d", "direction", "display", "dominant-baseline", "fill",
    "fill-opacity", "fill-rule", "filter", "flood-color", "flood-opacity"
  }
  const FontFamilyToFontStyle: set<string> := {
    "font-family", "font-size", "font-size-adjust", "font-stretch", "font-style"
  }
  const FontVariantToImageRendering: set<string> := {
    "font-variant", "font-weight", "glyph-orientation-horizontal", "glyph-orientation-vertical",
    "image-rendering"
  }
  const LetterSpacingToShapeRendering: set<string> := {
    "letter-spacing", "lighting-color", "marker-end", "marker-mid", "marker-start",
    "mask", "opacity", "overflow", "pointer-events", "shape-rendering"
  }
  const StopColorToStrokeWidth: set<string> := {
    "stop-color", "stop-opacity", "stroke", "stroke-dasharray", "stroke-dashoffset",
    "stroke-linecap", "stroke-linejoin", "stroke-miterlimit", "stroke-opacity", "stroke-width"
  }
  const TextAnchorToWritingMode: set<string> := {
    "text-anchor", "text-decoration", "text-rendering", "transform", "transform-origin",
    "unicode-bidi", "vector-effect", "visibility", "word-spacing", "writing-mode"
  }

  /** The names of the SVG presentation attributes (sixty of them). */
  const SvgPresentationAttributes: set<string> :=
    AlignmentToCursor + DToFloodOpacity + FontFamilyToFontStyle + FontVariantToImageRendering
    + LetterSpacingToShapeRendering + StopColorToStrokeWidth + TextAnchorToWritingMode

  /** Whether `name` is an SVG presentation attribute: exact, case-sensitive membership. */
  predicate IsSvgPresentationAttribute(name: string) {
    name in SvgPresentationAttributes
  }

  /** Every character is a lower-case ASCII letter or a hyphen. */
  predicate HyphenatedLowerCase(name: string) {
    forall i :: 0 <= i < |name| ==> ('a' <= name[i] <= 'z') || name[i] == '-'
  }

  /** The properties every accepted name has, checked over one group of the table. */
  predicate TableEntryShape(name: string) {
    |name| > 0 && HyphenatedLowerCase(name)
    && name != "width" && name != "height" && name != "xmlns"
  }

  lemma AlignmentToCursorShape() ensures forall n | n in AlignmentToCursor :: TableEntryShape(n) {}
  lemma DToFloodOpacityShape() ensures forall n | n in DToFloodOpacity :: TableEntryShape(n) {}
  lemma FontFamilyToFontStyleShape() ensures forall n | n in FontFamilyToFontStyle :: TableEntryShape(n) {}
  lemma FontVariantToImageRenderingShape()
    ensures forall n | n in FontVariantToImageRendering :: TableEntryShape(n) {}
  lemma LetterSpacingToShapeRenderingShape()
    ensures forall n | n in LetterSpacingToShapeRendering :: TableEntryShape(n) {}
  lemma StopColorToStrokeWidthShape() ensures forall n | n in StopColorToStrokeWidth :: TableEntryShape(n) {}
  lemma TextAnchorToWritingModeShape() ensures forall n | n in TextAnchorToWritingMode :: TableEntryShape(n) {}

  /**
   * Every accepted name is non-empty hyphenated lower case, and neither `width`, `height` nor
   * `xmlns`: the test is case-sensitive and can never let a preset set sizing or the namespace.
   */
  lemma AcceptedNameShape(name: string)
    requires IsSvgPresentationAttribute(name)
    ensures |name| > 0 && HyphenatedLowerCase(name)
    ensures name != "width" && name != "height" && name != "xmlns"
  {
    AlignmentToCursorShape();
    DToFloodOpacityShape();
    FontFamilyToFontStyleShape();
    FontVariantToImageRenderingShape();
    LetterSpacingToShapeRenderingShape();
    StopColorToStrokeWidthShape();
    TextAnchorToWritingModeShape();
    assert TableEntryShape(name);
  }

  /** A name with a character other than a lower-case letter or a hyphen is refused. */
  lemma MixedCaseRejected(name: string)
    requires !HyphenatedLowerCase(name)
    ensures !IsSvgPresentationAttribute(name)
  {
    if IsSvgPresentationAttribute(name) {
      AcceptedNameShape(name);
    }
  }

  /** Sizing and namespace attributes are not presentation attributes, so no preset can set them. */
  lemma SizingAndNamespaceExcluded()
    ensures !IsSvgPresentationAttribute("width") && !IsSvgPresentationAttribute("height")
    ensures !IsSvgPresentationAttribute("xmlns") && !IsSvgPresentationAttribute("viewBox")
  {
    if IsSvgPresentationAttribute("width") { AcceptedNameShape("width"); }
    if IsSvgPresentationAttribute("height") { AcceptedNameShape("height"); }
    if IsSvgPresentationAttribute("xmlns") { AcceptedNameShape("xmlns"); }
    assert "viewBox"[4] == 'B';
    MixedCaseRejected("viewBox");
  }

  /** Names that differ from a table entry only in letter case are refused. */
  lemma CaseSensitive()
    ensures IsSvgPresentationAttribute("fill") && !IsSvgPresentationAttribute("Fill")
    ensures IsSvgPresentationAttribute("stroke-width") && !IsSvgPresentationAttribute("Stroke-Width")
  {
    assert "Fill"[0] == 'F';
    MixedCaseRejected("Fill");
    assert "Stroke-Width"[0] == 'S';
    MixedCaseRejected("Stroke-Width");
  }

  /** `color` is in the table, so a user preset `color` may replace the synthesized one. */
  lemma ColorIsPresentationAttribute()
    ensures IsSvgPresentationAttribute("color")
  {
  }
}
