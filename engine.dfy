/**
 * The preview's engine: the object the extension creates once, with its activation guard,
 * the preset and size taken at each reset, the url cache of every document, and the single
 * pending refresh of the debounced edit handler.
 */
module Engine {
  import opened Wrappers
  import opened JsText
  import opened XmlTree
  import opened PresentationAttributes
  import opened Snippets
  import opened Presets
  import opened Decorations

  /** A text document, by identity, with its current text. */
  type DocumentId = nat
  datatype Document = Document(id: DocumentId, text: string)

  /** The extension's settings as a reset reads them. */
  datatype Settings = Settings(
    size: Option<real>,
    currentColor: Option<string>,
    preset: Option<seq<(string, ConfigValue)>>)

  // ---------------------------------------------------------------------------------------
  // The section of the settings

  /** `.*$` from `q` on: the rest of the text holds no line terminator. */
  predicate LineEndsText(t: string, q: nat)
    requires q <= |t|
  {
    forall k :: q <= k < |t| ==> !IsLineTerminator(t[k])
  }

  /** `(?<=\.).*$` matches at `q`. */
  predicate SectionAt(t: string, q: nat) {
    1 <= q <= |t| && t[q - 1] == '.' && LineEndsText(t, q)
  }

  /** The leftmost position from `p` on where the section pattern matches. */
  function SectionStart(t: string, p: nat): (r: Option<nat>)
    requires 1 <= p
    ensures r.Some? ==> p <= r.value && SectionAt(t, r.value)
    ensures r.Some? ==> forall q :: p <= q < r.value ==> !SectionAt(t, q)
    ensures r.None? ==> forall q :: p <= q ==> !SectionAt(t, q)
    decreases |t| - p
  {
    if p > |t| then None
    else if t[p - 1] == '.' && LineEndsText(t, p) then Some(p)
    else SectionStart(t, p + 1)
  }

  /** `id.match(/(?<=\.).*$/)?.[0]`: the text after a dot up to the end, leftmost match. */
  function SectionOf(id: string): (r: Option<string>)
    ensures r.Some? <==> exists q: nat :: SectionAt(id, q)
    ensures r.Some? ==> exists q: nat :: (SectionAt(id, q) && r.value == id[q..] &&
      forall q' :: 1 <= q' < q ==> !SectionAt(id, q'))
  {
    match SectionStart(id, 1)
    case None => None
    case Some(q) => Some(id[q..])
  }

  /** On one line, the section is everything after the first dot. */
  lemma SectionAfterFirstDot(id: string, d: nat)
    requires d < |id| && id[d] == '.' && forall k :: 0 <= k < d ==> id[k] != '.'
    requires LineEndsText(id, d + 1)
    ensures SectionOf(id) == Some(id[d + 1..])
  {
    assert SectionAt(id, d + 1);
  }

  /** The usual `publisher.name` identifier gives the name as the section. */
  lemma SectionOfExtensionId()
    ensures SectionOf("sugoroku-y.svg-preview-on-code") == Some("svg-preview-on-code")
  {
    var id := "sugoroku-y.svg-preview-on-code";
    assert id[10] == '.';
    assert forall k :: 0 <= k < 10 ==> id[k] != '.';
    assert LineEndsText(id, 11);
    SectionAfterFirstDot(id, 10);
    assert id[11..] == "svg-preview-on-code";
  }

  /** An identifier without a dot has no section. */
  lemma NoDotNoSection(id: string)
    requires forall k :: 0 <= k < |id| ==> id[k] != '.'
    ensures SectionOf(id).None?
  {
    forall q: nat | 1 <= q <= |id| ensures !SectionAt(id, q) {
      assert id[q - 1] != '.';
    }
  }

  // ---------------------------------------------------------------------------------------
  // What the engine's operations compute

  /** A document's previous cache, `urlCache.get(document)`. */
  function Previous(cache: map<DocumentId, UrlCache>, id: DocumentId): (r: Option<UrlCache>)
    ensures r.Some? <==> id in cache
  {
    if id in cache then Some(cache[id]) else None
  }

  /** Install a committed entry: set it, or delete the document's entry when there is none. */
  function CommitTo(cache: map<DocumentId, UrlCache>, id: DocumentId, entry: Option<UrlCache>): (r: map<DocumentId, UrlCache>)
    ensures Previous(r, id) == entry
    ensures forall d :: d != id ==> Previous(r, d) == Previous(cache, d)
  {
    if entry.Some? then cache[id := entry.value] else cache - {id}
  }

  /** The decorations of one document and the url cache it leaves (`svgPreviewDecorations`). */
  function DocumentPass(ctx: Context, cache: map<DocumentId, UrlCache>, doc: Document, disabled: bool)
    : (seq<Decoration>, map<DocumentId, UrlCache>)
  {
    if disabled then ([], cache)
    else
      var previous := Previous(cache, doc.id);
      var pass := Run(ctx, previous, Scan(doc.text));
      (pass.decorations, CommitTo(cache, doc.id, Commit(previous, pass)))
  }

  /** `update(editor)`: the decorations set on the editor, if there is one, and the new cache. */
  function UpdateResult(ctx: Context, cache: map<DocumentId, UrlCache>, editor: Option<Document>, disabled: bool)
    : (Option<seq<Decoration>>, map<DocumentId, UrlCache>)
  {
    if editor.None? then (None, cache)
    else
      var (ds, next) := DocumentPass(ctx, cache, editor.value, disabled);
      (Some(ds), next)
  }

  /** The decorations set so far on refreshed editors, and the url cache. */
  type Refresh = (seq<(DocumentId, seq<Decoration>)>, map<DocumentId, UrlCache>)

  /** One visible editor: refreshed only when the old cache had its document. */
  function RefreshStep(ctx: Context, oldDocuments: set<DocumentId>, acc: Refresh, e: Document, disabled: set<DocumentId>): Refresh {
    if e.id !in oldDocuments then acc
    else
      var pass := DocumentPass(ctx, acc.1, e, e.id in disabled);
      (acc.0 + [(e.id, pass.0)], pass.1)
  }

  /**
   * The loop of `updateVisibleEditors` after the reset: the editors whose documents the old
   * cache held are refreshed in order, each pass seeing the cache left by the one before.
   */
  function RefreshVisible(ctx: Context, oldDocuments: set<DocumentId>, cache: map<DocumentId, UrlCache>,
                          editors: seq<Document>, disabled: set<DocumentId>): Refresh
    decreases |editors|
  {
    if editors == [] then ([], cache)
    else
      var before := RefreshVisible(ctx, oldDocuments, cache, editors[..|editors| - 1], disabled);
      RefreshStep(ctx, oldDocuments, before, editors[|editors| - 1], disabled)
  }

  /** The cache after the open documents' entries are dropped, one after the other. */
  function DropAll(cache: map<DocumentId, UrlCache>, documents: seq<DocumentId>): map<DocumentId, UrlCache>
    decreases |documents|
  {
    if documents == [] then cache
    else DropAll(cache, documents[..|documents| - 1]) - {documents[|documents| - 1]}
  }

  // ---------------------------------------------------------------------------------------
  // What those computations promise

  /** Exactly the open documents lose their entries; the others keep theirs. */
  lemma {:induction false} DropAllEntries(cache: map<DocumentId, UrlCache>, documents: seq<DocumentId>)
    ensures forall d :: d in DropAll(cache, documents) <==> d in cache && d !in documents
    ensures forall d :: d in DropAll(cache, documents) ==> DropAll(cache, documents)[d] == cache[d]
    decreases |documents|
  {
    if documents != [] {
      var init := documents[..|documents| - 1];
      DropAllEntries(cache, init);
      assert documents == init + [documents[|documents| - 1]];
    }
  }

  predicate ValidCaches(cache: map<DocumentId, UrlCache>) {
    forall d :: d in cache ==> ValidCache(cache[d])
  }

  /** A pass touches only its own document's entry, and leaves no entry when nothing is left. */
  lemma DocumentPassLocal(ctx: Context, cache: map<DocumentId, UrlCache>, doc: Document, disabled: bool)
    ensures var (ds, next) := DocumentPass(ctx, cache, doc, disabled);
      && (forall d :: d != doc.id ==> Previous(next, d) == Previous(cache, d))
      && (disabled ==> ds == [] && next == cache)
      && (!disabled ==> (Previous(next, doc.id).None? <==> |Run(ctx, Previous(cache, doc.id), Scan(doc.text)).next| == 0))
  {
  }

  /** With a renderer of svg data URLs, a pass keeps every cached value valid. */
  lemma DocumentPassValid(ctx: Context, cache: map<DocumentId, UrlCache>, doc: Document, disabled: bool)
    requires ValidCaches(cache) && RendersSvgUrls(ctx.render)
    ensures ValidCaches(DocumentPass(ctx, cache, doc, disabled).1)
  {
    if !disabled {
      var previous := Previous(cache, doc.id);
      RunKeepsCacheValid(ctx, previous, Scan(doc.text));
      var next := DocumentPass(ctx, cache, doc, disabled).1;
      forall d | d in next ensures ValidCache(next[d]) {
        assert Previous(next, d).Some?;
        if d != doc.id {
          assert Previous(next, d) == Previous(cache, d);
        }
      }
    }
  }

  /**
   * The url cache makes a second pass over an unchanged document a replay: the same
   * decorations, and the cache stays as the first pass left it.
   */
  lemma DocumentPassReplays(ctx: Context, ctx2: Context, cache: map<DocumentId, UrlCache>, doc: Document, disabled: bool)
    requires ValidCaches(cache) && RendersSvgUrls(ctx.render)
    requires ctx2.labels == ctx.labels && ctx2.extensionId == ctx.extensionId
    ensures var (ds, next) := DocumentPass(ctx, cache, doc, disabled);
      DocumentPass(ctx2, next, doc, disabled) == (ds, next)
  {
    if !disabled {
      var previous := Previous(cache, doc.id);
      var snippets := Scan(doc.text);
      var first := Run(ctx, previous, snippets);
      var next := CommitTo(cache, doc.id, Commit(previous, first));
      SecondPassReplays(ctx, ctx2, previous, snippets);
      assert Previous(next, doc.id) == Commit(previous, first);
      var second := Run(ctx2, Previous(next, doc.id), snippets);
      assert CommitTo(next, doc.id, Commit(Previous(next, doc.id), second)) == next;
    }
  }

  /** Updating keeps every cached value valid. */
  lemma UpdateValid(ctx: Context, cache: map<DocumentId, UrlCache>, editor: Option<Document>, disabled: bool)
    requires ValidCaches(cache) && RendersSvgUrls(ctx.render)
    ensures ValidCaches(UpdateResult(ctx, cache, editor, disabled).1)
  {
    if editor.Some? {
      DocumentPassValid(ctx, cache, editor.value, disabled);
    }
  }

  /**
   * Refreshing the visible editors keeps every cached value valid, and after the reset only
   * documents that were refreshed hold an entry.
   */
  lemma {:induction false} RefreshVisibleCaches(ctx: Context, oldDocuments: set<DocumentId>, cache: map<DocumentId, UrlCache>,
                                                editors: seq<Document>, disabled: set<DocumentId>)
    requires ValidCaches(cache) && RendersSvgUrls(ctx.render)
    ensures var (refreshed, next) := RefreshVisible(ctx, oldDocuments, cache, editors, disabled);
      && ValidCaches(next)
      && (forall d :: d in next ==> d in cache || exists k :: 0 <= k < |refreshed| && refreshed[k].0 == d)
      && (forall k :: 0 <= k < |refreshed| ==> refreshed[k].0 in oldDocuments)
    decreases |editors|
  {
    if editors != [] {
      var init := editors[..|editors| - 1];
      var e := editors[|editors| - 1];
      RefreshVisibleCaches(ctx, oldDocuments, cache, init, disabled);
      var (refreshed, c) := RefreshVisible(ctx, oldDocuments, cache, init, disabled);
      if e.id in oldDocuments {
        DocumentPassValid(ctx, c, e, e.id in disabled);
        DocumentPassLocal(ctx, c, e, e.id in disabled);
        var (ds, next) := DocumentPass(ctx, c, e, e.id in disabled);
        var all := refreshed + [(e.id, ds)];
        forall d | d in next ensures d in cache || exists k :: 0 <= k < |all| && all[k].0 == d {
          if d == e.id {
            assert all[|refreshed|].0 == d;
          } else {
            assert Previous(next, d) == Previous(c, d);
            if d !in cache {
              var k :| 0 <= k < |refreshed| && refreshed[k].0 == d;
              assert all[k].0 == d;
            }
          }
        }
        assert forall k :: 0 <= k < |refreshed| ==> all[k] == refreshed[k];
      }
    }
  }

  // ---------------------------------------------------------------------------------------
  // The engine

  /**
   * The preview object. The parser, builder and `Number()` come as `lib`; the two localized
   * hover texts as `labels`. A document's cache entry is its url cache.
   */
  class SvgPreviewOnCode {
    const lib: XmlLibrary
    const labels: Labels
    var id: Option<string>
    var section: Option<string>
    var activated: bool
    var urlCache: map<DocumentId, UrlCache>
    var preset: Attributes
    var size: Option<real>
    /** The document whose editor the pending debounced refresh will update, if one is pending. */
    var timeout: Option<DocumentId>

    /** Every cached value is `error` or an svg data URL. */
    ghost predicate Valid()
      reads this
    {
      ValidCaches(urlCache)
    }

    /** What a pass over a document depends on in the engine's current state. */
    function CurrentContext(): Context
      reads this`preset, this`size, this`id
    {
      Context(Renderer(lib, preset, size), id, labels)
    }

    constructor (lib: XmlLibrary, labels: Labels, settings: Settings, theme: ThemeKind)
      ensures Valid() && this.lib == lib && this.labels == labels
      ensures !activated && id.None? && section.None? && timeout.None?
      ensures urlCache == map[] && size == settings.size
      ensures preset == ResetPreset(settings.currentColor, theme, settings.preset)
    {
      this.lib := lib;
      this.labels := labels;
      id := None;
      section := None;
      activated := false;
      urlCache := map[];
      preset := [];
      size := None;
      timeout := None;
      new;
      Reset(settings, theme);
    }

    /** `reset()`: a fresh cache, the configured size, and the preset rebuilt from the settings. */
    method Reset(settings: Settings, theme: ThemeKind)
      modifies this
      ensures Valid()
      ensures urlCache == map[] && size == settings.size
      ensures preset == ResetPreset(settings.currentColor, theme, settings.preset)
      ensures id == old(id) && section == old(section) && activated == old(activated) && timeout == old(timeout)
    {
      var initial := InitialPreset(settings.currentColor, theme);
      var merged := initial;
      if settings.preset.Some? {
        merged := MergePresets(initial, settings.preset.value);
      }
      size := settings.size;
      urlCache := map[];
      preset := merged;
    }

    /**
     * `activate(context)`: throws (`ok` false, nothing changes) when already active;
     * otherwise takes the identity and its section, resets, and updates the active editor.
     */
    method Activate(extensionId: string, settings: Settings, theme: ThemeKind, active: Option<Document>, disabled: bool)
      returns (ok: bool, shown: Option<seq<Decoration>>)
      requires Valid()
      modifies this
      ensures Valid()
      ensures ok == !old(activated)
      ensures !ok ==> shown.None? && activated && id == old(id) && section == old(section)
      ensures !ok ==> urlCache == old(urlCache) && preset == old(preset) && size == old(size) && timeout == old(timeout)
      ensures ok ==> activated && id == Some(extensionId) && section == SectionOf(extensionId)
      ensures ok ==> preset == ResetPreset(settings.currentColor, theme, settings.preset) && size == settings.size
      ensures ok ==> timeout.None? && (shown, urlCache) == UpdateResult(CurrentContext(), map[], active, disabled)
    {
      if activated {
        return false, None;
      }
      id := Some(extensionId);
      section := SectionOf(extensionId);
      Reset(settings, theme);
      activated := true;
      ghost var ctx := CurrentContext();
      shown := Update(active, disabled);
      assert CurrentContext() == ctx;
      ok := true;
    }

    /**
     * `deactivate()`: nothing when inactive; otherwise inactive, with the entries of the open
     * documents dropped. The pending refresh stays pending.
     */
    method Deactivate(openDocuments: seq<DocumentId>)
      requires Valid()
      modifies this`activated, this`urlCache
      ensures Valid() && !activated
      ensures urlCache == if old(activated) then DropAll(old(urlCache), openDocuments) else old(urlCache)
    {
      if !activated {
        return;
      }
      activated := false;
      var i := 0;
      while i < |openDocuments|
        invariant 0 <= i <= |openDocuments|
        invariant urlCache == DropAll(old(urlCache), openDocuments[..i])
        invariant ValidCaches(urlCache)
        modifies this`urlCache
      {
        urlCache := urlCache - {openDocuments[i]};
        assert openDocuments[..i + 1][..i] == openDocuments[..i];
        i := i + 1;
      }
      assert openDocuments[..i] == openDocuments;
    }

    /** `clearTimeout()`: no refresh is pending afterwards. */
    method ClearTimeout()
      modifies this`timeout
      ensures timeout.None?
    {
      if timeout.Some? {
        timeout := None;
      }
    }

    /** `svgPreviewDecorations(document)`, consumed in full. */
    method SvgPreviewDecorations(doc: Document, disabled: bool) returns (ds: seq<Decoration>)
      requires Valid()
      modifies this`urlCache
      ensures Valid()
      ensures (ds, urlCache) == DocumentPass(CurrentContext(), old(urlCache), doc, disabled)
    {
      var ctx := CurrentContext();
      if disabled {
        return [];
      }
      var previous := if doc.id in urlCache then Some(urlCache[doc.id]) else None;
      var pass := RunPass(ctx, previous, doc.text);
      ds := pass.decorations;
      CommitMap(doc.id, previous, pass);
      RendererShape(lib, preset, size);
      DocumentPassValid(ctx, old(urlCache), doc, disabled);
    }

    /**
     * The end of `svgPreviewDecorations`: the new map replaces the document's entry when it has
     * entries and something changed, and an empty one deletes the entry.
     */
    method CommitMap(doc: DocumentId, previous: Option<UrlCache>, pass: PassState)
      requires previous == Previous(urlCache, doc)
      modifies this`urlCache
      ensures urlCache == CommitTo(old(urlCache), doc, Commit(previous, pass))
    {
      var next := pass.next;
      if |next| > 0 {
        if pass.comingNew || previous.None? || |next| != |previous.value| {
          urlCache := urlCache[doc := next];
        } else {
          assert urlCache[doc := previous.value] == urlCache;
        }
      } else if previous.Some? {
        urlCache := urlCache - {doc};
      } else {
        assert urlCache - {doc} == urlCache;
      }
    }

    /** `update(editor)`: no refresh stays pending; the editor, if any, gets its decorations. */
    method Update(editor: Option<Document>, disabled: bool) returns (shown: Option<seq<Decoration>>)
      requires Valid()
      modifies this`timeout, this`urlCache
      ensures Valid() && timeout.None?
      ensures (shown, urlCache) == UpdateResult(CurrentContext(), old(urlCache), editor, disabled)
    {
      ClearTimeout();
      if editor.None? {
        return None;
      }
      var ds := SvgPreviewDecorations(editor.value, disabled);
      shown := Some(ds);
    }

    /**
     * `updateVisibleEditors()`: reset, then update the visible editors whose documents had
     * an entry in the cache before the reset.
     */
    method UpdateVisibleEditors(settings: Settings, theme: ThemeKind, visible: seq<Document>, disabled: set<DocumentId>)
      returns (refreshed: seq<(DocumentId, seq<Decoration>)>)
      requires Valid()
      modifies this
      ensures Valid()
      ensures preset == ResetPreset(settings.currentColor, theme, settings.preset) && size == settings.size
      ensures (refreshed, urlCache) == RefreshVisible(CurrentContext(), old(urlCache).Keys, map[], visible, disabled)
      ensures refreshed == [] ==> timeout == old(timeout)
      ensures refreshed != [] ==> timeout.None?
      ensures id == old(id) && section == old(section) && activated == old(activated)
    {
      var oldDocuments := urlCache.Keys;
      Reset(settings, theme);
      refreshed := RefreshEditors(oldDocuments, visible, disabled);
    }

    /** The loop of `updateVisibleEditors`: update each visible editor the old cache knew. */
    method RefreshEditors(oldDocuments: set<DocumentId>, visible: seq<Document>, disabled: set<DocumentId>)
      returns (refreshed: seq<(DocumentId, seq<Decoration>)>)
      requires Valid()
      modifies this`urlCache, this`timeout
      ensures Valid()
      ensures (refreshed, urlCache) == RefreshVisible(CurrentContext(), oldDocuments, old(urlCache), visible, disabled)
      ensures refreshed == [] ==> timeout == old(timeout)
      ensures refreshed != [] ==> timeout.None?
    {
      ghost var ctx := CurrentContext();
      refreshed := [];
      var i := 0;
      while i < |visible|
        invariant 0 <= i <= |visible|
        invariant Valid()
        invariant (refreshed, urlCache) == RefreshVisible(ctx, oldDocuments, old(urlCache), visible[..i], disabled)
        invariant refreshed == [] ==> timeout == old(timeout)
        invariant refreshed != [] ==> timeout.None?
      {
        refreshed := RefreshEditor(oldDocuments, visible[i], disabled, refreshed);
        assert visible[..i + 1][..i] == visible[..i];
        i := i + 1;
      }
      assert visible[..i] == visible;
    }

    /** One turn of that loop. */
    method RefreshEditor(oldDocuments: set<DocumentId>, e: Document, disabled: set<DocumentId>,
                         refreshed: seq<(DocumentId, seq<Decoration>)>)
      returns (refreshed': seq<(DocumentId, seq<Decoration>)>)
      requires Valid()
      modifies this`urlCache, this`timeout
      ensures Valid()
      ensures (refreshed', urlCache) == RefreshStep(CurrentContext(), oldDocuments, (refreshed, old(urlCache)), e, disabled)
      ensures refreshed' == refreshed ==> timeout == old(timeout)
      ensures refreshed' != refreshed ==> timeout.None?
    {
      refreshed' := refreshed;
      if e.id in oldDocuments {
        var shown := Update(Some(e), e.id in disabled);
        refreshed' := refreshed + [(e.id, shown.value)];
      }
    }

    /**
     * The edit handler: an edit of the active editor's document replaces the pending refresh
     * by one for that editor; any other edit changes nothing.
     */
    method OnDidChangeTextDocument(changed: DocumentId, active: Option<Document>)
      modifies this`timeout
      ensures timeout == if active.Some? && active.value.id == changed then Some(changed) else old(timeout)
    {
      if active.None? || changed != active.value.id {
        return;
      }
      ClearTimeout();
      timeout := Some(changed);
    }

    /** The pending refresh runs: it updates the editor it was scheduled for. */
    method FireTimeout(editor: Document, disabled: bool) returns (shown: seq<Decoration>)
      requires Valid() && timeout == Some(editor.id)
      modifies this`timeout, this`urlCache
      ensures Valid() && timeout.None?
      ensures (shown, urlCache) == DocumentPass(CurrentContext(), old(urlCache), editor, disabled)
    {
      var r := Update(Some(editor), disabled);
      shown := r.value;
    }
  }
}
