/**
 * The argument rules of the older svg-to-png converter (`index.cjs`). It takes an svg source,
 * an optional png destination and a `--size` that defaults to `192x192`.
 */
module SvgToPng {
  import opened Wrappers
  import opened JsText
  import opened Converter

  const DefaultSize := "192x192"

  const SourceNotSvg := "The source file is not SVG: ${source}"
  const DestinationNotPng := "The destination file is not PNG: ${destination}"

  /** The yargs `check`: the checks in order; the first that fails throws. */
  function Check(size: string, source: string, destination: Option<string>, sourceExists: bool): Outcome<Error> {
    if !IsSizeSpec(size) then Fail(Message(InvalidSize, map["size" := size]))
    else if !EndsWithIgnoringCase(source, ".svg") then Fail(Message(SourceNotSvg, map["source" := source]))
    else if Truthy(destination) && !EndsWithIgnoringCase(destination.value, ".png") then
      Fail(Message(DestinationNotPng, map["destination" := destination.value]))
    else if !sourceExists then Fail(Message(SourceNotFound, map["source" := source]))
    else Pass
  }

  /** `source.replace(/\.svg$/i, '.png')` */
  function DefaultDestination(source: string): string {
    if EndsWithIgnoringCase(source, ".svg") then source[..|source| - 4] + ".png" else source
  }

  /** The png file to write and the canvas size. */
  datatype PngPlan = PngPlan(destination: string, width: string, height: string)

  /**
   * The `check` on the arguments with the size's default applied, then the destination
   * default and the size parse. The parse failing after the check would throw `unreachable`.
   */
  function Prepare(size: Option<string>, source: string, destination: Option<string>, sourceExists: bool): Result<PngPlan, Error> {
    var spec := size.GetOr(DefaultSize);
    match Check(spec, source, destination, sourceExists)
    case Fail(e) => Failure(e)
    case Pass =>
      var target := destination.GetOr(DefaultDestination(source));
      match ParseSize(spec)
      case None => Failure(Unreachable)
      case Some(dims) => Success(PngPlan(target, dims.0, dims.1))
  }

  /**
   * The arguments are accepted exactly when the size is `W` or `WxH` (`192x192` when
   * omitted), the source ends in `.svg` and exists, and a given destination ends in `.png`.
   */
  lemma PrepareSucceedsIff(size: Option<string>, source: string, destination: Option<string>, sourceExists: bool)
    ensures Prepare(size, source, destination, sourceExists).Success? <==>
      && IsSizeSpec(size.GetOr(DefaultSize))
      && EndsWithIgnoringCase(source, ".svg")
      && (Truthy(destination) ==> EndsWithIgnoringCase(destination.value, ".png"))
      && sourceExists
    ensures Prepare(size, source, destination, sourceExists) != Failure(Unreachable)
  {
  }

  /** The default size is a 192 by 192 canvas. */
  lemma DefaultSizeParses()
    ensures ParseSize(DefaultSize) == Some(("192", "192"))
  {
    assert DefaultSize == "192" + "x" + "192";
    ParseSizeRoundTrip("192", "192");
  }

  /** A name ending in `.png` (in any case) does not end in `.svg`. */
  lemma PngIsNotSvg(d: string, source: string)
    requires EndsWithIgnoringCase(d, ".png") && EndsWithIgnoringCase(source, ".svg")
    ensures d != source
  {
    assert ".svg"[1] == 's' && ".png"[1] == 'p';
    assert ToLowerAscii(source[|source| - 4 + 1]) == 's';
    assert ToLowerAscii(d[|d| - 4 + 1]) == 'p';
  }

  /** The default destination of an svg source ends in `.png`. */
  lemma DefaultDestinationIsPng(source: string)
    requires EndsWithIgnoringCase(source, ".svg")
    ensures EndsWithIgnoringCase(DefaultDestination(source), ".png")
  {
    var d := DefaultDestination(source);
    var n := |source|;
    assert d[n - 4..] == ".png";
    forall i | 0 <= i < 4 ensures ToLowerAscii(d[n - 4 + i]) == ".png"[i] {
      assert d[n - 4 + i] == ".png"[i];
    }
  }

  /**
   * The result is always a png other than the source: the default replaces the source's
   * `.svg`, and a given destination already ends in `.png` (or is empty). That is why this
   * script needs no identical-files check.
   */
  lemma PrepareDestination(size: Option<string>, source: string, destination: Option<string>, sourceExists: bool)
    requires Prepare(size, source, destination, sourceExists).Success?
    ensures var plan := Prepare(size, source, destination, sourceExists).value;
      && plan.destination != source
      && (destination.Some? ==> plan.destination == destination.value)
      && (destination.None? ==> plan.destination == source[..|source| - 4] + ".png")
      && (plan.destination != "" ==> EndsWithIgnoringCase(plan.destination, ".png"))
  {
    var d := Prepare(size, source, destination, sourceExists).value.destination;
    if destination.None? {
      DefaultDestinationIsPng(source);
      PngIsNotSvg(d, source);
    } else if d != "" {
      PngIsNotSvg(d, source);
    }
  }

  /** The canvas height defaults to the width. */
  lemma PrepareSize(size: Option<string>, source: string, destination: Option<string>, sourceExists: bool)
    requires Prepare(size, source, destination, sourceExists).Success?
    ensures var plan := Prepare(size, source, destination, sourceExists).value;
      && ParseSize(size.GetOr(DefaultSize)) == Some((plan.width, plan.height))
      && (size.None? ==> plan.width == "192" && plan.height == "192")
  {
    DefaultSizeParses();
  }
}
