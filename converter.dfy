/**
 * The argument rules of the image converter (`index.js`). They check the `--size`, the
 * source, the destination and the `--type` arguments, then derive the image type, the
 * destination file and the canvas size. Reading, rendering and writing the files is left
 * to the environment; whether the source exists is a parameter.
 */
module Converter {
  import opened Wrappers
  import opened JsText
  import opened Encoding

  /** The `--type` choices. */
  datatype ImageType = Webp | Jpeg | Png

  function TypeName(t: ImageType): (r: string)
    ensures |r| > 0
  {
    match t
    case Webp => "webp"
    case Jpeg => "jpeg"
    case Png => "png"
  }

  /** `{ png: '.png', webp: '.webp', jpeg: '.jpg' }[type]` */
  function TypeExtension(t: ImageType): string {
    match t
    case Png => ".png"
    case Webp => ".webp"
    case Jpeg => ".jpg"
  }

  /** What the scripts throw: a message localized with its parameters, or `error`unreachable``. */
  datatype Error = Message(message: string, params: map<string, string>) | Unreachable

  const InvalidSize := "Invalid size(${size}): Please specify in WxH format"
  const UnsupportedImageType := "Unsupported the image type: ${type}"
  const DestinationNotType := "The destination file is not ${type}: ${destination}"
  const SourceNotFound := "The source file not found: ${source}"
  const IdenticalFiles := "The source and destination files are identical. Please specify a different name for the files.: ${source}"

  /** A string argument is truthy when given and not empty. */
  predicate Truthy(o: Option<string>) {
    o.Some? && o.value != ""
  }

  // ---------------------------------------------------------------------------------------
  // `--size`

  /** `\d+` */
  predicate Digits(s: string) {
    |s| > 0 && forall i :: 0 <= i < |s| ==> IsDigit(s[i])
  }

  /** `/^\d+(?:x\d+)?$/.test(s)` */
  predicate IsSizeSpec(s: string) {
    Digits(s) || exists k :: 0 <= k < |s| && s[k] == 'x' && Digits(s[..k]) && Digits(s[k + 1..])
  }

  /** `/^(\d+)(?:x(\d+))?$/.exec(s)` with `height = width` as the default. */
  function ParseSize(s: string): (r: Option<(string, string)>)
    ensures r.Some? <==> IsSizeSpec(s)
    ensures r.Some? ==> Digits(r.value.0) && Digits(r.value.1)
    ensures r.Some? ==> (s == r.value.0 && r.value.1 == r.value.0) || s == r.value.0 + "x" + r.value.1
  {
    match FindChar(s, 0, 'x')
    case None =>
      assert forall k :: 0 <= k < |s| ==> s[k] != 'x';
      if Digits(s) then Some((s, s)) else None
    case Some(k) =>
      assert !Digits(s) by { assert !IsDigit(s[k]); }
      assert forall j :: 0 <= j < |s| && s[j] == 'x' && Digits(s[..j]) ==> j == k by {
        forall j | 0 <= j < |s| && s[j] == 'x' && Digits(s[..j]) ensures j == k {
          if k < j {
            assert false;
          }
        }
      }
      if Digits(s[..k]) && Digits(s[k + 1..]) then
        assert s == s[..k] + "x" + s[k + 1..];
        Some((s[..k], s[k + 1..]))
      else None
  }

  /** A `WxH` or `W` argument gives back its width and height. */
  lemma ParseSizeRoundTrip(w: string, h: string)
    requires Digits(w) && Digits(h)
    ensures ParseSize(w + "x" + h) == Some((w, h))
    ensures ParseSize(w) == Some((w, w))
  {
    var s := w + "x" + h;
    assert s[..|w|] == w && s[|w| + 1..] == h && s[|w|] == 'x';
    assert !Digits(s) by { assert !IsDigit(s[|w|]); }
  }

  // ---------------------------------------------------------------------------------------
  // File extensions

  /** The alternatives of `\.(?:xbm|tif|jfif|ico|tiff|gif|svgz?|p?jpe?g|webp|a?png|bmp|pjp|avif)$`. */
  const SourceExtensions: set<string> := {
    "xbm", "tif", "jfif", "ico", "tiff", "gif", "svg", "svgz", "jpg", "jpeg", "pjpg", "pjpeg",
    "webp", "png", "apng", "bmp", "pjp", "avif"}

  /** The source names an image the browser can load, ignoring case. */
  predicate SupportedSource(source: string) {
    exists e :: e in SourceExtensions && EndsWithIgnoringCase(source, "." + e)
  }

  /** The alternatives of `\.(png|jpe?g|webp)$`. */
  const DestinationExtensions: set<string> := {"png", "jpg", "jpeg", "webp"}

  /**
   * `/\.(png|jpe?g|webp)$/i.exec(destination)`: the alternative that matched, in lower case
   * (the text of `match[1]` lower-cases to it).
   */
  function DestinationExtension(d: string): (r: Option<string>)
    ensures r.Some? <==> exists e :: e in DestinationExtensions && EndsWithIgnoringCase(d, "." + e)
    ensures r.Some? ==> r.value in DestinationExtensions && EndsWithIgnoringCase(d, "." + r.value)
  {
    assert "." + "png" == ".png" && "." + "jpg" == ".jpg" && "." + "jpeg" == ".jpeg" && "." + "webp" == ".webp";
    if EndsWithIgnoringCase(d, ".png") then Some("png")
    else if EndsWithIgnoringCase(d, ".jpg") then Some("jpg")
    else if EndsWithIgnoringCase(d, ".jpeg") then Some("jpeg")
    else if EndsWithIgnoringCase(d, ".webp") then Some("webp")
    else None
  }

  /** The image type an output extension names. */
  function ExtensionType(ext: string): ImageType
    requires ext in DestinationExtensions
  {
    if ext == "png" then Png else if ext == "webp" then Webp else Jpeg
  }

  /** `type.charAt(0) === match[1].charAt(0).toLowerCase()`, with `ext` the lower-cased match. */
  predicate SameLetter(t: ImageType, ext: string)
    requires |ext| > 0
  {
    TypeName(t)[0] == ext[0]
  }

  // ---------------------------------------------------------------------------------------
  // The yargs `check`

  /** The checks in order; the first that fails throws. */
  function Check(size: Option<string>, imageType: Option<ImageType>, source: string,
                 destination: Option<string>, sourceExists: bool): Outcome<Error>
  {
    if Truthy(size) && !IsSizeSpec(size.value) then
      Fail(Message(InvalidSize, map["size" := size.value]))
    else if !SupportedSource(source) then
      Fail(Message(UnsupportedImageType, map["type" := source]))
    else if Truthy(destination) && DestinationExtension(destination.value).None? then
      Fail(Message(UnsupportedImageType, map["type" := destination.value]))
    else if Truthy(destination) && imageType.Some? && !SameLetter(imageType.value, DestinationExtension(destination.value).value) then
      Fail(Message(DestinationNotType, map["destination" := destination.value, "type" := TypeName(imageType.value)]))
    else if !sourceExists then
      Fail(Message(SourceNotFound, map["source" := source]))
    else Pass
  }

  // ---------------------------------------------------------------------------------------
  // Derivations

  /**
   * `_type ?? (_destination ? <type of its extension> : 'png')`. None is the branch that
   * throws `unreachable`.
   */
  function DeriveType(imageType: Option<ImageType>, destination: Option<string>): Option<ImageType> {
    if imageType.Some? then imageType
    else if Truthy(destination) then
      var d := destination.value;
      if EndsWithIgnoringCase(d, ".png") then Some(Png)
      else if EndsWithIgnoringCase(d, ".jpg") || EndsWithIgnoringCase(d, ".jpeg") then Some(Jpeg)
      else if EndsWithIgnoringCase(d, ".webp") then Some(Webp)
      else None
    else Some(Png)
  }

  /** The start of the longest suffix of word characters. */
  function WordSuffixStart(s: string): (r: nat)
    ensures r <= |s|
    ensures forall j :: r <= j < |s| ==> IsWordChar(s[j])
    ensures r == 0 || !IsWordChar(s[r - 1])
  {
    if s == [] || !IsWordChar(s[|s| - 1]) then |s|
    else
      var r := WordSuffixStart(s[..|s| - 1]);
      assert forall j :: r <= j < |s| - 1 ==> s[j] == s[..|s| - 1][j];
      r
  }

  /** `s[dot]` is a `.` followed by one or more word characters up to the end. */
  predicate ExtensionDot(s: string, dot: nat) {
    dot + 1 < |s| && s[dot] == '.' && forall j :: dot < j < |s| ==> IsWordChar(s[j])
  }

  /** `s.replace(/\.\w+$/i, ext)`: the last extension replaced, or `s` when it has none. */
  function ReplaceExtension(s: string, ext: string): (r: string)
    ensures forall dot: nat :: ExtensionDot(s, dot) ==> r == s[..dot] + ext
    ensures (forall dot: nat :: !ExtensionDot(s, dot)) ==> r == s
  {
    var k := WordSuffixStart(s);
    assert forall dot: nat :: ExtensionDot(s, dot) ==> dot + 1 == k by {
      forall dot: nat | ExtensionDot(s, dot) ensures dot + 1 == k {
        if dot + 1 < k {
          assert false;
        }
      }
    }
    if 0 < k < |s| && s[k - 1] == '.' then
      assert ExtensionDot(s, k - 1);
      s[..k - 1] + ext
    else s
  }

  /** The converter's decisions once the arguments are accepted. */
  datatype Plan = Plan(imageType: ImageType, destination: string, width: Option<string>, height: Option<string>)

  /** The `check`, then the type, destination and size the conversion uses. */
  function Prepare(size: Option<string>, imageType: Option<ImageType>, source: string,
                   destination: Option<string>, sourceExists: bool): Result<Plan, Error>
  {
    match Check(size, imageType, source, destination, sourceExists)
    case Fail(e) => Failure(e)
    case Pass =>
      match DeriveType(imageType, destination)
      case None => Failure(Unreachable)
      case Some(t) =>
        var target := if destination.Some? then destination.value else ReplaceExtension(source, TypeExtension(t));
        if target == source then Failure(Message(IdenticalFiles, map["source" := source]))
        else
          var dims := if Truthy(size) then ParseSize(size.value) else None;
          Success(Plan(t, target,
            if dims.Some? then Some(dims.value.0) else None,
            if dims.Some? then Some(dims.value.1) else None))
  }

  /** An accepted destination determines the type that `DeriveType` guesses from it. */
  lemma DeriveFromExtension(d: string)
    requires d != "" && DestinationExtension(d).Some?
    ensures DeriveType(None, Some(d)) == Some(ExtensionType(DestinationExtension(d).value))
  {
  }

  /** The `unreachable` branch of the type derivation cannot be taken after the check. */
  lemma PrepareNeverUnreachable(size: Option<string>, imageType: Option<ImageType>, source: string,
                                destination: Option<string>, sourceExists: bool)
    ensures Prepare(size, imageType, source, destination, sourceExists) != Failure(Unreachable)
  {
    if Check(size, imageType, source, destination, sourceExists).Pass? && imageType.None? && Truthy(destination) {
      DeriveFromExtension(destination.value);
    }
  }

  /** The source extensions are made of letters. */
  lemma SourceExtensionIsWord(e: string)
    requires e in SourceExtensions
    ensures |e| > 0 && forall i :: 0 <= i < |e| ==> 'a' <= e[i] <= 'z'
  {
  }

  /** A name ending in `.` and a word of letters, in any case, has that extension. */
  lemma LetterSuffixIsExtension(source: string, e: string)
    requires |e| > 0 && forall i :: 0 <= i < |e| ==> 'a' <= e[i] <= 'z'
    requires EndsWithIgnoringCase(source, "." + e)
    ensures ExtensionDot(source, |source| - |e| - 1)
  {
    var dot := |source| - |e| - 1;
    assert ToLowerAscii(source[dot]) == ("." + e)[0] == '.';
    forall j | dot < j < |source| ensures IsWordChar(source[j]) {
      assert ToLowerAscii(source[j]) == ("." + e)[j - dot] == e[j - dot - 1];
    }
  }

  /** Every supported source name ends with an extension `ReplaceExtension` can replace. */
  lemma SupportedSourceHasExtension(source: string)
    requires SupportedSource(source)
    ensures exists dot: nat :: ExtensionDot(source, dot)
  {
    var e :| e in SourceExtensions && EndsWithIgnoringCase(source, "." + e);
    SourceExtensionIsWord(e);
    LetterSuffixIsExtension(source, e);
  }

  /**
   * The arguments are accepted exactly when the size is empty or `W`/`WxH`, the source has
   * an image extension, a given destination names an output type agreeing with `--type`,
   * the source exists, and the destination is not the source.
   */
  lemma PrepareSucceedsIff(size: Option<string>, imageType: Option<ImageType>, source: string,
                           destination: Option<string>, sourceExists: bool)
    ensures Prepare(size, imageType, source, destination, sourceExists).Success? <==>
      && (Truthy(size) ==> IsSizeSpec(size.value))
      && SupportedSource(source)
      && (Truthy(destination) ==> DestinationExtension(destination.value).Some?)
      && (Truthy(destination) && imageType.Some? ==> SameLetter(imageType.value, DestinationExtension(destination.value).value))
      && sourceExists
      && DeriveType(imageType, destination).Some?
      && (if destination.Some? then destination.value
          else ReplaceExtension(source, TypeExtension(DeriveType(imageType, destination).value))) != source
  {
    PrepareNeverUnreachable(size, imageType, source, destination, sourceExists);
  }

  /**
   * The type is `--type`, else the type of the destination's extension, else `png`; with a
   * destination the type and the extension start with the same letter.
   */
  lemma PrepareType(size: Option<string>, imageType: Option<ImageType>, source: string,
                    destination: Option<string>, sourceExists: bool)
    requires Prepare(size, imageType, source, destination, sourceExists).Success?
    ensures var plan := Prepare(size, imageType, source, destination, sourceExists).value;
      && (imageType.Some? ==> plan.imageType == imageType.value)
      && (imageType.None? && Truthy(destination) ==>
            plan.imageType == ExtensionType(DestinationExtension(destination.value).value))
      && (imageType.None? && !Truthy(destination) ==> plan.imageType == Png)
      && (Truthy(destination) ==> SameLetter(plan.imageType, DestinationExtension(destination.value).value))
  {
    if imageType.None? && Truthy(destination) {
      DeriveFromExtension(destination.value);
    }
  }

  /**
   * Without a destination the output is the source with its last extension replaced by the
   * type's; it never overwrites the source.
   */
  lemma PrepareDestination(size: Option<string>, imageType: Option<ImageType>, source: string,
                           destination: Option<string>, sourceExists: bool)
    requires Prepare(size, imageType, source, destination, sourceExists).Success?
    ensures var plan := Prepare(size, imageType, source, destination, sourceExists).value;
      && plan.destination != source
      && (destination.Some? ==> plan.destination == destination.value)
      && (destination.None? ==> exists dot: nat :: ExtensionDot(source, dot) && plan.destination == source[..dot] + TypeExtension(plan.imageType))
  {
    SupportedSourceHasExtension(source);
  }

  /** The canvas size is taken from a non-empty `--size`, the height defaulting to the width. */
  lemma PrepareSize(size: Option<string>, imageType: Option<ImageType>, source: string,
                    destination: Option<string>, sourceExists: bool)
    requires Prepare(size, imageType, source, destination, sourceExists).Success?
    ensures var plan := Prepare(size, imageType, source, destination, sourceExists).value;
      && (plan.width.Some? <==> Truthy(size)) && (plan.height.Some? <==> Truthy(size))
      && (Truthy(size) ==> ParseSize(size.value) == Some((plan.width.value, plan.height.value)))
      && (Truthy(size) && 'x' !in size.value ==> plan.height == plan.width)
  {

  }

  /** With no options the output is a png named after the source, unless that is the source. */
  lemma PrepareWithoutOptions(source: string)
    requires SupportedSource(source)
    ensures var target := ReplaceExtension(source, ".png");
      Prepare(None, None, source, None, true) ==
        if target == source then Failure(Message(IdenticalFiles, map["source" := source]))
        else Success(Plan(Png, target, None, None))
  {
  }

  /** Without a destination an svg icon becomes a png beside it. */
  lemma PrepareDefaultExample()
    ensures Prepare(None, None, "icon.svg", None, true) == Success(Plan(Png, "icon.png", None, None))
  {
    assert "svg" in SourceExtensions && EndsWithIgnoringCase("icon.svg", "." + "svg");
    PrepareWithoutOptions("icon.svg");
    assert ExtensionDot("icon.svg", 4);
    assert "icon.svg"[..4] + ".png" == "icon.png";
  }

  /** A png source with no destination would be overwritten, so it is refused. */
  lemma PrepareIdenticalExample()
    ensures Prepare(None, None, "icon.png", None, true) == Failure(Message(IdenticalFiles, map["source" := "icon.png"]))
  {
    assert "png" in SourceExtensions && EndsWithIgnoringCase("icon.png", "." + "png");
    PrepareWithoutOptions("icon.png");
    assert ExtensionDot("icon.png", 4);
    assert "icon.png"[..4] + ".png" == "icon.png";
  }

  // ---------------------------------------------------------------------------------------
  // `dataUrl`

  /** What `Buffer.from` is given: a string (taken as UTF-8) or bytes. */
  datatype Payload = TextPayload(text: string) | BytePayload(bytes: seq<Byte>)

  function PayloadBytes(p: Payload): seq<Byte> {
    match p
    case TextPayload(s) => Utf8Encode(s)
    case BytePayload(b) => b
  }

  /** `dataUrl(type, source)`: the URL names the type and carries the payload's bytes. */
  function DataUrlOf(mime: string, p: Payload): (r: string)
    ensures StartsWith(r, DataScheme + mime + Base64Marker)
    ensures Base64Decode(r[|DataScheme + mime + Base64Marker|..]) == Some(PayloadBytes(p))
    ensures p.TextPayload? ==> Utf8Decode(PayloadBytes(p)) == Some(p.text)
  {
    DataUrlRoundTrip(mime, PayloadBytes(p));
    TextPayloadDecodes(p);
    DataUrl(mime, PayloadBytes(p))
  }

  lemma TextPayloadDecodes(p: Payload)
    ensures p.TextPayload? ==> Utf8Decode(PayloadBytes(p)) == Some(p.text)
  {
    if p.TextPayload? {
      Utf8RoundTrip(p.text);
    }
  }
}
