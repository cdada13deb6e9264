/**
 * One pass of the preview over a document's snippets: how each snippet is resolved against
 * the document's previous url cache, the decorations the pass yields, the cache it builds,
 * and the rule by which that cache replaces the previous one.
 */
module Decorations {
  import opened Wrappers
  import opened JsText
  import opened XmlTree
  import opened Encoding
  import opened Snippets
  import opened SvgRoot

  /** One document's url cache: svg key to data URL, or to `error` for a snippet that failed. */
  type UrlCache = map<string, string>

  const ErrorMark := "error"
  const SettingsCommand := "workbench.action.openSettings"
  const SvgUrlPrefix := DataScheme + SvgMime + Base64Marker

  /** The localized texts of the hover: `preview.preview` and `preview.settings`. */
  datatype Labels = Labels(preview: string, settings: string)

  /**
   * What a pass depends on besides the text: the renderer of svg keys (the library, the preset
   * and the size bound together), the extension's identity and the hover labels.
   */
  datatype Context = Context(
    render: string -> Option<string>,
    extensionId: Option<string>,
    labels: Labels)

  /** The renderer the preview uses with a given library, preset and size. */
  function Renderer(lib: XmlLibrary, preset: Attributes, size: Option<real>): string -> Option<string> {
    key => Render(lib, preset, size, key)
  }

  /** A Markdown hover part; a trusted one may run the listed commands. */
  datatype Markdown = Markdown(text: string, supportThemeIcons: bool, enabledCommands: seq<string>)

  /** A decoration over the offsets `[start, end)` of the document text. */
  datatype Decoration = Decoration(start: nat, end: nat, hoverMessage: seq<Markdown>)

  /** The outcome for one snippet. */
  datatype Resolution =
    | AsIs          // a data URL, shown as it is
    | Hit(url: string)  // the previous cache holds its URL
    | KnownError    // the previous cache marks it as failed
    | Fresh(url: string) // rendered now
    | Failed        // rendering failed now
  {
    predicate Shown() {
      AsIs? || Hit? || Fresh?
    }
  }

  /** The cache key of an svg snippet. */
  function Key(s: Snippet): string {
    Normalize(s.raw)
  }

  /** `previousMap?.get(key)` where a missing map or key reads as the empty text. */
  function Cached(previous: Option<UrlCache>, key: string): string {
    if previous.Some? && key in previous.value then previous.value[key] else ""
  }

  /**
   * A snippet's outcome, decided from the previous cache alone: a non-empty cached value wins
   * (`error` meaning failure), otherwise the key is rendered.
   */
  function Resolve(ctx: Context, previous: Option<UrlCache>, s: Snippet): (r: Resolution)
    ensures !s.isSvg <==> r.AsIs?
    ensures r.Hit? || r.KnownError? ==> Cached(previous, Key(s)) != ""
    ensures r.Fresh? || r.Failed? ==> Cached(previous, Key(s)) == ""
  {
    if !s.isSvg then AsIs
    else
      var cached := Cached(previous, Key(s));
      if cached != "" then
        if cached == ErrorMark then KnownError else Hit(cached)
      else
        match ctx.render(Key(s))
        case None => Failed
        case Some(url) => Fresh(url)
  }

  /** The hover of a shown snippet: a title, the image, and for svg a link to the settings. */
  function Hover(ctx: Context, s: Snippet, url: string): (r: seq<Markdown>)
    ensures |r| == if s.isSvg then 3 else 2
  {
    var title := Markdown("### " + (if s.isSvg then "SVG" else "Data URL") + " " + ctx.labels.preview, false, []);
    var image := Markdown("![](" + url + ")", false, []);
    if s.isSvg then
      var id := if ctx.extensionId.Some? then ctx.extensionId.value else "undefined";
      var link := "[$(gear) " + ctx.labels.settings + "](command:" + SettingsCommand + "?[\"@ext:" + id + "\"])";
      [title, image, Markdown(link, true, [SettingsCommand])]
    else
      [title, image]
  }

  function ShownUrl(s: Snippet, r: Resolution): string
    requires r.Shown()
  {
    if r.AsIs? then s.raw else r.url
  }

  /** The state a pass carries from snippet to snippet. */
  datatype PassState = PassState(next: UrlCache, comingNew: bool, decorations: seq<Decoration>)

  function DecorationOf(ctx: Context, s: Snippet, url: string): Decoration {
    Decoration(s.index, s.End(), Hover(ctx, s, url))
  }

  /** The effect of one snippet on the pass. */
  function Step(ctx: Context, previous: Option<UrlCache>, p: PassState, s: Snippet): PassState {
    var r := Resolve(ctx, previous, s);
    match r
    case AsIs => p.(decorations := p.decorations + [DecorationOf(ctx, s, s.raw)])
    case Hit(url) => PassState(p.next[Key(s) := url], p.comingNew, p.decorations + [DecorationOf(ctx, s, url)])
    case Fresh(url) => PassState(p.next[Key(s) := url], true, p.decorations + [DecorationOf(ctx, s, url)])
    case _ =>
      var missing := !(previous.Some? && Key(s) in previous.value);
      PassState(p.next[Key(s) := ErrorMark], p.comingNew || missing, p.decorations)
  }

  /**
   * One turn of the pass's loop as the preview runs it: the `url` closure (cache lookup,
   * then rendering) and the `catch` that marks a failed svg snippet.
   */
  method VisitSnippet(ctx: Context, previous: Option<UrlCache>, p: PassState, s: Snippet) returns (q: PassState)
    ensures q == Step(ctx, previous, p, s)
  {
    var next, comingNew, ds := p.next, p.comingNew, p.decorations;
    if !s.isSvg {
      ds := ds + [DecorationOf(ctx, s, s.raw)];
    } else {
      var key := Normalize(s.raw);
      var cached := if previous.Some? && key in previous.value then previous.value[key] else "";
      var failed := false;
      var url := "";
      if cached != "" {
        if cached == ErrorMark {
          failed := true;
        } else {
          next := next[key := cached];
          url := cached;
        }
      } else {
        match ctx.render(key)
        case None =>
          failed := true;
        case Some(u) =>
          next := next[key := u];
          comingNew := true;
          url := u;
      }
      if failed {
        next := next[key := ErrorMark];
        if !(previous.Some? && key in previous.value) {
          comingNew := true;
        }
      } else {
        ds := ds + [DecorationOf(ctx, s, url)];
      }
    }
    q := PassState(next, comingNew, ds);
  }

  const Start := PassState(map[], false, [])

  /** The pass over the snippets, one after the other. */
  function Run(ctx: Context, previous: Option<UrlCache>, snippets: seq<Snippet>): PassState
    decreases |snippets|
  {
    if snippets == [] then Start
    else Step(ctx, previous, Run(ctx, previous, snippets[..|snippets| - 1]), snippets[|snippets| - 1])
  }

  /** The loop over the matches of the text, one turn per snippet. */
  method RunPass(ctx: Context, previous: Option<UrlCache>, text: string) returns (pass: PassState)
    ensures pass == Run(ctx, previous, Scan(text))
  {
    pass := Start;
    var snippets := Scan(text);
    var i := 0;
    while i < |snippets|
      invariant 0 <= i <= |snippets|
      invariant pass == Run(ctx, previous, snippets[..i])
    {
      pass := VisitSnippet(ctx, previous, pass, snippets[i]);
      assert snippets[..i + 1][..i] == snippets[..i];
      i := i + 1;
    }
    assert snippets[..i] == snippets;
  }

  /**
   * The document's cache after the pass (`None`: no entry): the new map when it has entries
   * and something is new or the sizes differ; no entry when it is empty; otherwise as before.
   */
  function Commit(previous: Option<UrlCache>, p: PassState): (r: Option<UrlCache>)
    ensures |p.next| == 0 ==> r.None?
    ensures r.Some? ==> r == Some(p.next) || r == previous
  {
    if |p.next| > 0 then
      if p.comingNew || previous.None? || |p.next| != |previous.value| then Some(p.next) else previous
    else None
  }

  // ---------------------------------------------------------------------------------------
  // What a pass computes

  /** The value a snippet leaves in the new cache. */
  function CacheValue(r: Resolution): string
    requires !r.AsIs?
  {
    if r.Hit? || r.Fresh? then r.url else ErrorMark
  }

  predicate IsSvgKeyOf(snippets: seq<Snippet>, key: string) {
    exists i :: 0 <= i < |snippets| && snippets[i].isSvg && Key(snippets[i]) == key
  }

  /** One snippet writes its own key, if it is an svg snippet, and nothing else. */
  lemma StepNext(ctx: Context, previous: Option<UrlCache>, p: PassState, s: Snippet)
    ensures Step(ctx, previous, p, s).next ==
      if s.isSvg then p.next[Key(s) := CacheValue(Resolve(ctx, previous, s))] else p.next
  {
  }

  /** The new cache holds exactly the keys of the svg snippets. */
  lemma {:induction false} RunCacheKeys(ctx: Context, previous: Option<UrlCache>, snippets: seq<Snippet>)
    ensures forall key :: key in Run(ctx, previous, snippets).next <==> IsSvgKeyOf(snippets, key)
    decreases |snippets|
  {
    if snippets != [] {
      var init := snippets[..|snippets| - 1];
      var last := snippets[|snippets| - 1];
      RunCacheKeys(ctx, previous, init);
      StepNext(ctx, previous, Run(ctx, previous, init), last);
      var next := Run(ctx, previous, snippets).next;
      forall key ensures key in next <==> IsSvgKeyOf(snippets, key) {
        if IsSvgKeyOf(init, key) {
          var i :| 0 <= i < |init| && init[i].isSvg && Key(init[i]) == key;
          assert snippets[i] == init[i];
        }
        if IsSvgKeyOf(snippets, key) {
          var i :| 0 <= i < |snippets| && snippets[i].isSvg && Key(snippets[i]) == key;
          if i < |init| {
            assert init[i] == snippets[i];
          }
        }
      }
    }
  }

  /** Each svg snippet's key holds the value that snippet resolved to. */
  lemma {:induction false} RunCacheValues(ctx: Context, previous: Option<UrlCache>, snippets: seq<Snippet>)
    ensures forall i :: 0 <= i < |snippets| && snippets[i].isSvg ==>
      Key(snippets[i]) in Run(ctx, previous, snippets).next &&
      Run(ctx, previous, snippets).next[Key(snippets[i])] == CacheValue(Resolve(ctx, previous, snippets[i]))
    decreases |snippets|
  {
    if snippets != [] {
      var init := snippets[..|snippets| - 1];
      var last := snippets[|snippets| - 1];
      RunCacheValues(ctx, previous, init);
      StepNext(ctx, previous, Run(ctx, previous, init), last);
      var next := Run(ctx, previous, snippets).next;
      forall i | 0 <= i < |snippets| && snippets[i].isSvg
        ensures Key(snippets[i]) in next && next[Key(snippets[i])] == CacheValue(Resolve(ctx, previous, snippets[i]))
      {
        if i < |init| {
          assert init[i] == snippets[i];
        }
      }
    }
  }

  /** A snippet is new to the cache: nothing usable was cached and it rendered or was unknown. */
  predicate BringsNew(ctx: Context, previous: Option<UrlCache>, s: Snippet) {
    var r := Resolve(ctx, previous, s);
    r.Fresh? || (r.Failed? && !(previous.Some? && Key(s) in previous.value))
  }

  /** One snippet sets `comingNew` exactly when it brings something new. */
  lemma StepComingNew(ctx: Context, previous: Option<UrlCache>, p: PassState, s: Snippet)
    ensures Step(ctx, previous, p, s).comingNew == (p.comingNew || BringsNew(ctx, previous, s))
  {
  }

  /** `comingNew` is set exactly when some snippet brings something new to the cache. */
  lemma {:induction false} RunComingNew(ctx: Context, previous: Option<UrlCache>, snippets: seq<Snippet>)
    ensures Run(ctx, previous, snippets).comingNew <==>
      exists i :: 0 <= i < |snippets| && BringsNew(ctx, previous, snippets[i])
    decreases |snippets|
  {
    if snippets != [] {
      var init := snippets[..|snippets| - 1];
      var last := snippets[|snippets| - 1];
      RunComingNew(ctx, previous, init);
      StepComingNew(ctx, previous, Run(ctx, previous, init), last);
      if exists i :: 0 <= i < |init| && BringsNew(ctx, previous, init[i]) {
        var i :| 0 <= i < |init| && BringsNew(ctx, previous, init[i]);
        assert snippets[i] == init[i];
      }
      if exists i :: 0 <= i < |snippets| && BringsNew(ctx, previous, snippets[i]) {
        var i :| 0 <= i < |snippets| && BringsNew(ctx, previous, snippets[i]);
        if i < |init| {
          assert init[i] == snippets[i];
        }
      }
    }
  }

  /** The snippets the pass shows, in their order: a reference list built from the front. */
  function ShownSnippets(ctx: Context, previous: Option<UrlCache>, snippets: seq<Snippet>): (r: seq<Snippet>)
    ensures |r| <= |snippets|
    ensures forall i :: 0 <= i < |r| ==> Resolve(ctx, previous, r[i]).Shown()
  {
    if snippets == [] then []
    else
      var rest := ShownSnippets(ctx, previous, snippets[1..]);
      if Resolve(ctx, previous, snippets[0]).Shown() then [snippets[0]] + rest else rest
  }

  lemma {:induction false} ShownSnippetsAppend(ctx: Context, previous: Option<UrlCache>, snippets: seq<Snippet>, s: Snippet)
    ensures ShownSnippets(ctx, previous, snippets + [s]) ==
      ShownSnippets(ctx, previous, snippets) + (if Resolve(ctx, previous, s).Shown() then [s] else [])
    decreases |snippets|
  {
    if snippets != [] {
      assert (snippets + [s])[1..] == snippets[1..] + [s];
      ShownSnippetsAppend(ctx, previous, snippets[1..], s);
    } else {
      assert ShownSnippets(ctx, previous, [s]) == (if Resolve(ctx, previous, s).Shown() then [s] else []) + [];
    }
  }

  /**
   * The decorations are those of the shown snippets, in order: each covers its snippet's range
   * and shows the URL its snippet resolved to.
   */
  lemma {:induction false} RunDecorations(ctx: Context, previous: Option<UrlCache>, snippets: seq<Snippet>)
    ensures var shown := ShownSnippets(ctx, previous, snippets);
      var ds := Run(ctx, previous, snippets).decorations;
      && |ds| == |shown|
      && forall i :: 0 <= i < |ds| ==>
        ds[i] == DecorationOf(ctx, shown[i], ShownUrl(shown[i], Resolve(ctx, previous, shown[i])))
    decreases |snippets|
  {
    if snippets != [] {
      var init := snippets[..|snippets| - 1];
      var last := snippets[|snippets| - 1];
      RunDecorations(ctx, previous, init);
      assert snippets == init + [last];
      ShownSnippetsAppend(ctx, previous, init, last);
    }
  }

  // ---------------------------------------------------------------------------------------
  // The cache invariant and what it buys

  /** Every cached value is `error` or an svg data URL, so none of them is empty. */
  predicate ValidCache(m: UrlCache) {
    forall key :: key in m ==> m[key] == ErrorMark || StartsWith(m[key], SvgUrlPrefix)
  }

  predicate ValidEntry(e: Option<UrlCache>) {
    e.Some? ==> ValidCache(e.value)
  }

  lemma ValidValueNotEmpty(m: UrlCache, key: string)
    requires ValidCache(m) && key in m
    ensures m[key] != ""
  {
  }

  /** A renderer that yields nothing but svg data URLs. */
  ghost predicate RendersSvgUrls(render: string -> Option<string>) {
    forall key :: render(key).Some? ==> StartsWith(render(key).value, SvgUrlPrefix)
  }

  /** The preview's renderer yields only svg data URLs. */
  lemma RendererShape(lib: XmlLibrary, preset: Attributes, size: Option<real>)
    ensures RendersSvgUrls(Renderer(lib, preset, size))
  {
    forall key | Render(lib, preset, size, key).Some?
      ensures StartsWith(Render(lib, preset, size, key).value, SvgUrlPrefix)
    {
      RenderDecodes(lib, preset, size, key);
    }
  }

  /** From a valid previous cache, a pass builds a valid cache, and commits a valid entry. */
  lemma RunKeepsCacheValid(ctx: Context, previous: Option<UrlCache>, snippets: seq<Snippet>)
    requires ValidEntry(previous) && RendersSvgUrls(ctx.render)
    ensures ValidCache(Run(ctx, previous, snippets).next)
    ensures ValidEntry(Commit(previous, Run(ctx, previous, snippets)))
  {
    var next := Run(ctx, previous, snippets).next;
    RunCacheKeys(ctx, previous, snippets);
    RunCacheValues(ctx, previous, snippets);
    forall key | key in next ensures next[key] == ErrorMark || StartsWith(next[key], SvgUrlPrefix) {
      var i :| 0 <= i < |snippets| && snippets[i].isSvg && Key(snippets[i]) == key;
      NewValueValid(ctx, previous, snippets[i]);
    }
  }

  /** What an svg snippet writes into the new cache is `error` or an svg data URL. */
  lemma NewValueValid(ctx: Context, previous: Option<UrlCache>, s: Snippet)
    requires ValidEntry(previous) && RendersSvgUrls(ctx.render) && s.isSvg
    ensures var v := CacheValue(Resolve(ctx, previous, s)); v == ErrorMark || StartsWith(v, SvgUrlPrefix)
  {
  }

  /** With a valid previous cache, a snippet brings something new exactly when its key is uncached. */
  lemma BringsNewIffUncached(ctx: Context, previous: Option<UrlCache>, s: Snippet)
    requires ValidEntry(previous) && s.isSvg
    ensures BringsNew(ctx, previous, s) <==> !(previous.Some? && Key(s) in previous.value)
  {
    if previous.Some? && Key(s) in previous.value {
      ValidValueNotEmpty(previous.value, Key(s));
    }
  }

  /** A finite set inside another of the same size is that set. */
  lemma SubsetSameSize<T>(a: set<T>, b: set<T>)
    requires a <= b && |a| == |b|
    ensures a == b
  {
    assert b == a + (b - a);
    assert |b| == |a| + |b - a|;
  }

  /**
   * With a valid previous cache the skipped write changes nothing: after the commit the
   * document's cache is exactly the new map, or no entry when the map is empty.
   */
  lemma CommitTransparent(ctx: Context, previous: Option<UrlCache>, snippets: seq<Snippet>)
    requires ValidEntry(previous)
    ensures var p := Run(ctx, previous, snippets);
      Commit(previous, p) == if |p.next| > 0 then Some(p.next) else None
  {
    var p := Run(ctx, previous, snippets);
    if |p.next| > 0 && !p.comingNew && previous.Some? && |p.next| == |previous.value| {
      var prev := previous.value;
      NothingNewIsCached(ctx, previous, snippets);
      SubsetSameSize(p.next.Keys, prev.Keys);
      assert p.next == prev;
    }
  }

  /** A pass that brings nothing new only copies entries of the previous cache. */
  lemma NothingNewIsCached(ctx: Context, previous: Option<UrlCache>, snippets: seq<Snippet>)
    requires ValidEntry(previous) && previous.Some? && !Run(ctx, previous, snippets).comingNew
    ensures var next := Run(ctx, previous, snippets).next;
      forall key :: key in next ==> key in previous.value && next[key] == previous.value[key]
  {
    var next := Run(ctx, previous, snippets).next;
    RunCacheKeys(ctx, previous, snippets);
    RunCacheValues(ctx, previous, snippets);
    RunComingNew(ctx, previous, snippets);
    forall key | key in next ensures key in previous.value && next[key] == previous.value[key] {
      var i :| 0 <= i < |snippets| && snippets[i].isSvg && Key(snippets[i]) == key;
      OldValueKept(ctx, previous, snippets[i]);
    }
  }

  /** An svg snippet that brings nothing new keeps the value the previous cache had for it. */
  lemma OldValueKept(ctx: Context, previous: Option<UrlCache>, s: Snippet)
    requires ValidEntry(previous) && s.isSvg && !BringsNew(ctx, previous, s)
    ensures previous.Some? && Key(s) in previous.value
    ensures CacheValue(Resolve(ctx, previous, s)) == previous.value[Key(s)]
  {
    BringsNewIffUncached(ctx, previous, s);
    ValidValueNotEmpty(previous.value, Key(s));
  }

  /**
   * The cache makes the next pass over the same snippets a replay: it shows the same
   * decorations, brings nothing new, keeps the cache as committed, and does not depend on the
   * renderer of the second pass.
   */
  lemma SecondPassReplays(ctx: Context, ctx2: Context, previous: Option<UrlCache>, snippets: seq<Snippet>)
    requires ValidEntry(previous) && RendersSvgUrls(ctx.render)
    requires ctx2.labels == ctx.labels && ctx2.extensionId == ctx.extensionId
    ensures var first := Run(ctx, previous, snippets);
      var cache := Commit(previous, first);
      var second := Run(ctx2, cache, snippets);
      && second.decorations == first.decorations
      && second.next == first.next
      && !second.comingNew
      && Commit(cache, second) == cache
  {
    var first := Run(ctx, previous, snippets);
    var cache := Commit(previous, first);
    SecondPassResolvesAlike(ctx, ctx2, previous, snippets);
    RunCacheKeys(ctx, previous, snippets);
    RunCacheValues(ctx, previous, snippets);
    SameResolutionsSamePass(ctx, ctx2, previous, cache, snippets);
    RunComingNew(ctx2, cache, snippets);
    RunCacheKeys(ctx2, cache, snippets);
    RunCacheValues(ctx2, cache, snippets);
    var second := Run(ctx2, cache, snippets);
    assert second.next == first.next;
  }

  /** Against the committed cache, every snippet shows what it showed and brings nothing new. */
  lemma SecondPassResolvesAlike(ctx: Context, ctx2: Context, previous: Option<UrlCache>, snippets: seq<Snippet>)
    requires ValidEntry(previous) && RendersSvgUrls(ctx.render)
    requires ctx2.labels == ctx.labels && ctx2.extensionId == ctx.extensionId
    ensures var cache := Commit(previous, Run(ctx, previous, snippets));
      forall i | 0 <= i < |snippets| ::
        && Resolve(ctx2, cache, snippets[i]).Shown() == Resolve(ctx, previous, snippets[i]).Shown()
        && (Resolve(ctx2, cache, snippets[i]).Shown() ==>
          ShownUrl(snippets[i], Resolve(ctx2, cache, snippets[i])) == ShownUrl(snippets[i], Resolve(ctx, previous, snippets[i])))
        && !BringsNew(ctx2, cache, snippets[i])
        && (snippets[i].isSvg ==> CacheValue(Resolve(ctx2, cache, snippets[i])) == CacheValue(Resolve(ctx, previous, snippets[i])))
  {
    var first := Run(ctx, previous, snippets);
    var cache := Commit(previous, first);
    RunKeepsCacheValid(ctx, previous, snippets);
    CommitTransparent(ctx, previous, snippets);
    RunCacheKeys(ctx, previous, snippets);
    RunCacheValues(ctx, previous, snippets);
    forall i | 0 <= i < |snippets|
      ensures Resolve(ctx2, cache, snippets[i]).Shown() == Resolve(ctx, previous, snippets[i]).Shown()
      ensures Resolve(ctx2, cache, snippets[i]).Shown() ==>
        ShownUrl(snippets[i], Resolve(ctx2, cache, snippets[i])) == ShownUrl(snippets[i], Resolve(ctx, previous, snippets[i]))
      ensures !BringsNew(ctx2, cache, snippets[i])
      ensures snippets[i].isSvg ==> CacheValue(Resolve(ctx2, cache, snippets[i])) == CacheValue(Resolve(ctx, previous, snippets[i]))
    {
      if snippets[i].isSvg {
        Replayed(ctx, ctx2, previous, first.next, snippets[i]);
      }
    }
  }

  /** A snippet whose key the cache holds, with the value it resolved to, resolves alike again. */
  lemma Replayed(ctx: Context, ctx2: Context, previous: Option<UrlCache>, cache: UrlCache, s: Snippet)
    requires ValidCache(cache) && RendersSvgUrls(ctx.render) && s.isSvg
    requires Key(s) in cache && cache[Key(s)] == CacheValue(Resolve(ctx, previous, s))
    ensures var r, r2 := Resolve(ctx, previous, s), Resolve(ctx2, Some(cache), s);
      && r2.Shown() == r.Shown()
      && (r2.Shown() ==> ShownUrl(s, r2) == ShownUrl(s, r))
      && !BringsNew(ctx2, Some(cache), s)
      && CacheValue(r2) == CacheValue(r)
  {
    ValidValueNotEmpty(cache, Key(s));
    assert !StartsWith(ErrorMark, SvgUrlPrefix);
  }

  /** Two passes whose snippets resolve alike show the same decorations. */
  lemma {:induction false} SameResolutionsSamePass(ctx: Context, ctx2: Context, previous: Option<UrlCache>,
                                                   previous2: Option<UrlCache>, snippets: seq<Snippet>)
    requires ctx2.labels == ctx.labels && ctx2.extensionId == ctx.extensionId
    requires forall i :: 0 <= i < |snippets| ==>
      && Resolve(ctx2, previous2, snippets[i]).Shown() == Resolve(ctx, previous, snippets[i]).Shown()
      && (Resolve(ctx2, previous2, snippets[i]).Shown() ==>
        ShownUrl(snippets[i], Resolve(ctx2, previous2, snippets[i])) == ShownUrl(snippets[i], Resolve(ctx, previous, snippets[i])))
    ensures Run(ctx2, previous2, snippets).decorations == Run(ctx, previous, snippets).decorations
    decreases |snippets|
  {
    if snippets != [] {
      var init := snippets[..|snippets| - 1];
      forall i | 0 <= i < |init|
        ensures Resolve(ctx2, previous2, init[i]).Shown() == Resolve(ctx, previous, init[i]).Shown()
        ensures Resolve(ctx2, previous2, init[i]).Shown() ==>
          ShownUrl(init[i], Resolve(ctx2, previous2, init[i])) == ShownUrl(init[i], Resolve(ctx, previous, init[i]))
      {
        assert init[i] == snippets[i];
      }
      SameResolutionsSamePass(ctx, ctx2, previous, previous2, init);
    }
  }

  /** A cached URL is shown whatever the renderer: the cache decides. */
  lemma HitIgnoresRendering(ctx: Context, ctx2: Context, previous: Option<UrlCache>, s: Snippet)
    requires s.isSvg && Cached(previous, Key(s)) != ""
    ensures Resolve(ctx2, previous, s) == Resolve(ctx, previous, s)
  {
  }

  /** A data URL snippet is shown as it is and leaves the cache alone. */
  lemma DataUrlShownAsIs(ctx: Context, previous: Option<UrlCache>, p: PassState, s: Snippet)
    requires !s.isSvg
    ensures Step(ctx, previous, p, s) ==
      p.(decorations := p.decorations + [Decoration(s.index, s.End(), Hover(ctx, s, s.raw))])
    ensures |Hover(ctx, s, s.raw)| == 2
  {
  }
}
