# SVG Preview on Code — a Dafny model

This project models the core of the VS Code extension "SVG Preview on Code". The extension
scans a document's text for inline `<svg …>…</svg>` markup and for `data:image/…;base64,…`
URLs. For each one it shows a decoration whose hover displays the image.

For an svg snippet, the extension:

- strips whitespace next to tags;
- parses the snippet;
- checks that the root element is in the SVG namespace;
- adds the user's preset presentation attributes (and `color`, which gives `currentColor` its
  value);
- optionally scales the root to the configured size;
- rebuilds the markup and encodes it as a base64 `data:image/svg+xml` URL.

The URLs are cached per document. The cache key is the normalized markup. A failed snippet is
cached as `error`. A document's cache is replaced only when something new was produced or
the number of entries changed.

The project also models the two image converter scripts under `images/converter`, and their
`localize` helper with its type-level template checks:

- `index.js` converts an image to webp, jpeg or png;
- `index.cjs` converts svg to png.

Modules, in dependency order:

| file | module | what it holds |
|---|---|---|
| `wrappers.dfy` | `Wrappers` | `Option`, `Result`, `Outcome` |
| `jstext.dfy` | `JsText` | the JavaScript regular-expression character classes and string searches the sources use |
| `xmltree.dfy` | `XmlTree` | the node shape produced by fast-xml-parser with `preserveOrder`; ordered attribute lists and object spread |
| `encoding.dfy` | `Encoding` | UTF-8 and base64 encode/decode (`Buffer.from(…).toString('base64')`) and data URLs |
| `attributes.dfy` | `PresentationAttributes` | the table of SVG presentation attributes and `isSvgPresentationAttribute` |
| `snippets.dfy` | `Snippets` | the `matchAll` scan for svg snippets and data URLs, and whitespace normalization |
| `svgroot.dfy` | `SvgRoot` | root-attribute checks, sizing, attribute merge and rendering to a data URL |
| `presets.dfy` | `Presets` | the preset built by `reset` from the configuration and the colour theme |
| `decorations.dfy` | `Decorations` | one pass of `svgPreviewDecorations` over a document: resolution, hovers, cache and commit |
| `engine.dfy` | `Engine` | the `SvgPreviewOnCode` class: `activate`, `deactivate`, `reset`, `update`, `updateVisibleEditors` and the change timer |
| `template.dfy` | `Template` | the `Tokenize` template type from `LocaleMap.d.ts` and the runtime `replace` it describes |
| `localizer.dfy` | `Localizer` | `localizer(map, locale)` and the `localize` function object |
| `converter.dfy` | `Converter` | the argument checks and derivations of `index.js` |
| `svgtopng.dfy` | `SvgToPng` | the argument checks and derivations of `index.cjs` |

`Engine.SvgPreviewOnCode` is a class: its fields (`id`, `section`, `activated`, `urlCache`,
`preset`, `size`, `timeout`) are those of the source, and its methods update them in place.
The per-document pass is `Decorations.RunPass`, a loop over the scanned snippets. It is proved
equal to the specification function `Decorations.Run`. `SvgRoot`, `Presets`, `Template` and the
converter modules are pure, like the code they model.

The host environment enters the model only as parameters:

- the XML library and `Number(…)` are a record of three function values, parse, build and number coercion (`XmlTree.XmlLibrary`);
- hover labels and theme kind are parameters;
- configuration values are a `Settings` record;
- a document is an id and its text;
- whether a file exists is a boolean.

## Model

| member | source | states |
|---|---|---|
| `PresentationAttributes.IsSvgPresentationAttribute` | src/SvgPresentationAttribute.ts:75-79 | membership in the attribute table; the lemmas below state which names it accepts |
| `PresentationAttributes.AcceptedNameShape` | src/SvgPresentationAttribute.ts:6-79 | every accepted attribute name is non-empty lower-case hyphenated, and is never `width`, `height` or `xmlns` (the names the sizing and the namespace check own) |
| `PresentationAttributes.MixedCaseRejected` | src/SvgPresentationAttribute.ts:75-79 | a name that is not lower-case hyphenated is rejected |
| `PresentationAttributes.SizingAndNamespaceExcluded` | src/SvgPresentationAttribute.ts:6-67 | `width`, `height`, `xmlns` and `viewBox` are not presentation attributes |
| `PresentationAttributes.CaseSensitive` | src/SvgPresentationAttribute.ts:75-79 | lookup is exact: `fill` and `stroke-width` are accepted, `Fill` and `Stroke-Width` are not |
| `PresentationAttributes.ColorIsPresentationAttribute` | src/SvgPresentationAttribute.ts:12 | `color` is in the table, so a user preset may override the theme colour |
| `XmlTree.Get` | src/SvgPreviewOnCode.ts:265-266 | an attribute is found exactly when its name is present, and the value found is the one stored under that name |
| `XmlTree.Put` | src/SvgPreviewOnCode.ts:183 | assigning a property sets that name, leaves every other name unchanged, keeps the position of an existing name and appends a new one |
| `XmlTree.SpreadGet` | src/SvgPreviewOnCode.ts:288-295 | in `{...a, ...b}` a name takes its value from `b` when `b` has it, otherwise from `a` |
| `XmlTree.SpreadKeepsOrder` | src/SvgPreviewOnCode.ts:288-295 | spreading keeps the property order of the left operand as a prefix |
| `XmlTree.SpreadNames` | src/SvgPreviewOnCode.ts:288-295 | the spread has exactly the names of either operand |
| `Encoding.DecodeEncodedChar` | src/SvgPreviewOnCode.ts:297-299 | decoding the UTF-8 encoding of one character yields that character and its byte length |
| `Encoding.Utf8RoundTrip` | src/SvgPreviewOnCode.ts:297-299 | UTF-8 decoding inverts `Buffer.from(string)` |
| `Encoding.Utf8Injective` | src/SvgPreviewOnCode.ts:297-299 | distinct markup gives distinct bytes |
| `Encoding.DigitValueOfDigit` | src/SvgPreviewOnCode.ts:297-299 | reading a base64 digit back yields its six-bit value |
| `Encoding.Base64Encode` | src/SvgPreviewOnCode.ts:297-299 | base64 output is four characters for every started group of three bytes |
| `Encoding.DecodeEncodedGroup` | src/SvgPreviewOnCode.ts:297-299 | a full three-byte group decodes back to its bytes |
| `Encoding.DecodeEncodedPair` | src/SvgPreviewOnCode.ts:297-299 | a two-byte tail padded with one `=` decodes back to its bytes |
| `Encoding.DecodeEncodedByte` | src/SvgPreviewOnCode.ts:297-299 | a one-byte tail padded with `==` decodes back to its byte |
| `Encoding.Base64RoundTrip` | src/SvgPreviewOnCode.ts:297-299 | base64 decoding inverts `toString('base64')` for every byte string |
| `Encoding.DataUrl` | images/converter/index.js:292-294 | `data:${mime};base64,${…}`; `DataUrlRoundTrip` states its shape and inverse |
| `Encoding.DataUrlRoundTrip` | images/converter/index.js:292-294 | a data URL is the scheme, the mime type, `;base64,` and a payload that decodes back to the bytes |
| `Snippets.SvgMatchAt` | src/SvgPreviewOnCode.ts:230 | an svg match is the text at its index, starts with `<svg` and a whitespace character and ends with `</svg>` |
| `Snippets.SvgMatchFound` | src/SvgPreviewOnCode.ts:230 | at `<svg`, a whitespace, a first `>` and the first `</svg>` after it, the svg alternative matches exactly up to the end of that `</svg>` (`[^>]*>` stops at the first `>`, the lazy `.*?` at the first `</svg>`) |
| `Snippets.SvgMatchShape` | src/SvgPreviewOnCode.ts:230 | every svg match has that shape: there is a first `>` and a first `</svg>` after it at which the match ends |
| `Snippets.SvgMatchExists` | src/SvgPreviewOnCode.ts:230 | wherever `<svg`, a whitespace, some `>` and a later `</svg>` occur, the svg alternative matches, and ends no later than that `</svg>` |
| `Snippets.DataMatchAt` | src/SvgPreviewOnCode.ts:230 | a data match is the text at its index, starts with `data:image/` and follows a word boundary |
| `Snippets.SubtypeEndIs` | src/SvgPreviewOnCode.ts:230 | the subtype `\w+(?:\+\w+)?` read before `;` ends at that `;` |
| `Snippets.DataMatchFound` | src/SvgPreviewOnCode.ts:230 | at a word boundary, `data:image/`, a subtype, `;base64,` and a base64 character, the data alternative matches up to the end of the greedy payload `[A-Za-z0-9+/]+` and its `=*` padding |
| `Snippets.DataMatchShape` | src/SvgPreviewOnCode.ts:230 | every data match has that shape and ends where the payload and its padding end |
| `Snippets.MatchAt` | src/SvgPreviewOnCode.ts:227-231 | a match of the pattern at an index is the text at that index |
| `Snippets.MatchAtSvg` | src/SvgPreviewOnCode.ts:229-231 | at an svg element the pattern matches it through the svg alternative, which is tried first |
| `Snippets.MatchAtData` | src/SvgPreviewOnCode.ts:229-231 | at a data URL the pattern matches it through the data alternative |
| `Snippets.MatchAtNone` | src/SvgPreviewOnCode.ts:229-231 | where neither an svg element nor a data URL starts, the pattern does not match |
| `Snippets.Scan` | src/SvgPreviewOnCode.ts:227-231 | the scan of a document; `ScanSpec` proves it is the `matchAll` result |
| `Snippets.NextMatch` | src/SvgPreviewOnCode.ts:227-231 | the next match found lies at or after the search position and matches there |
| `Snippets.NextMatchLeftmost` | src/SvgPreviewOnCode.ts:227-231 | no match starts between the search position and the match found |
| `Snippets.ScanIsMatchAll` | src/SvgPreviewOnCode.ts:227-231 | the scan is a `matchAll` result: leftmost matches, each search resuming at the end of the previous match |
| `Snippets.MatchAllUnique` | src/SvgPreviewOnCode.ts:227-231 | there is only one `matchAll` result for a text |
| `Snippets.ScanSpec` | src/SvgPreviewOnCode.ts:227-231 | the scan of a document is its one `matchAll` result |
| `Snippets.ScanRanges` | src/SvgPreviewOnCode.ts:306-308 | each snippet's `[index, index + length)` range lies in the text and holds the matched text; the ranges are in order and do not overlap |
| `Snippets.BareSvgTagIgnored` | src/SvgPreviewOnCode.ts:230 | `<svg></svg>` without whitespace after the tag name is not a snippet |
| `Snippets.TestSvgScan` | src/SvgPreviewOnCode.ts:227-231 | a complete svg element is scanned as one svg snippet |
| `Snippets.TestDataScan` | src/SvgPreviewOnCode.ts:227-231 | a `data:image/svg+xml;base64,…` URL is scanned as one data snippet |
| `Snippets.Normalize` | src/SvgPreviewOnCode.ts:233 | `replace(/(?<=>)\s+\|\s+(?=<)/g, '')`; its properties are the three lemmas below |
| `Snippets.NormalizeIsNormalized` | src/SvgPreviewOnCode.ts:233 | after normalization no whitespace follows a `>` or precedes a `<` |
| `Snippets.NormalizeIdempotent` | src/SvgPreviewOnCode.ts:233 | normalizing twice is normalizing once, so equal keys come from equal normalized markup |
| `Snippets.NormalizeKeepsInk` | src/SvgPreviewOnCode.ts:233 | normalization only removes whitespace: the non-whitespace characters are unchanged and in order |
| `Snippets.SvgKeyNotEmpty` | src/SvgPreviewOnCode.ts:233-239 | the key of an svg snippet is never empty (it starts with `<`), so the data-URL branch is taken only for data URLs |
| `SvgRoot.Dimension` | src/SvgPreviewOnCode.ts:272-273 | `Number(v) \|\| undefined`; `SizeSquareFallback` and `SizeFitted` state what it does to the size |
| `SvgRoot.FitToSize` | src/SvgPreviewOnCode.ts:274-285 | the fitted width and height; the lemmas below state their ratio and bounds |
| `SvgRoot.FitKeepsAspectRatio` | src/SvgPreviewOnCode.ts:274-285 | with both dimensions known, the scaled width and height keep the original aspect ratio |
| `SvgRoot.FitBoundsLargerSide` | src/SvgPreviewOnCode.ts:274-285 | for positive dimensions the larger side becomes the configured size and neither side exceeds it |
| `SvgRoot.FitExample` | src/SvgPreviewOnCode.ts:274-285 | 100×25 fits 50 as 50×12.5; a missing width gives a square of the size |
| `SvgRoot.SizeAttributes` | src/SvgPreviewOnCode.ts:270-286 | sizing attributes exist exactly when a non-zero size is configured, and are exactly `width` then `height` |
| `SvgRoot.SizeSquareFallback` | src/SvgPreviewOnCode.ts:270-286 | when the root's `width` or `height` is missing, not a number or zero, both sizing values are the configured size |
| `SvgRoot.SizeFitted` | src/SvgPreviewOnCode.ts:270-286 | when both are non-zero numbers, the sizing values are the fitted size of those dimensions |
| `SvgRoot.Merge` | src/SvgPreviewOnCode.ts:288-295 | `{ ...preset, ...attrs, ...size }`; `MergePrecedence` and `MergeOrder` state its result |
| `SvgRoot.MergePrecedence` | src/SvgPreviewOnCode.ts:288-295 | an attribute of the rebuilt root comes from the sizing, else the original attributes, else the preset |
| `SvgRoot.MergeOrder` | src/SvgPreviewOnCode.ts:288-295 | preset names lead the merged attributes, which hold exactly the names of the three parts |
| `SvgRoot.RootAttributes` | src/SvgPreviewOnCode.ts:265-269 | the root is accepted only when the first node has attributes and its `xmlns` is the SVG namespace |
| `SvgRoot.Rebuilt` | src/SvgPreviewOnCode.ts:251-295 | a rebuilt tree is the parsed tree with only the first node's attributes replaced by the merge |
| `SvgRoot.Render` | src/SvgPreviewOnCode.ts:251-303 | the rendering of one svg snippet; `RenderSucceedsIff` and `RenderDecodes` state its result |
| `SvgRoot.RenderSucceedsIff` | src/SvgPreviewOnCode.ts:251-303 | rendering succeeds exactly when the markup parses and its first node is an element with SVG-namespace attributes |
| `SvgRoot.RenderDecodes` | src/SvgPreviewOnCode.ts:297-299 | a rendered URL is `data:image/svg+xml;base64,` and decodes back to the built markup |
| `SvgRoot.RebuiltRootAttributes` | src/SvgPreviewOnCode.ts:265-295 | with a preset of presentation attributes, the rebuilt root keeps the SVG namespace, and its width and height come from the sizing when present, else from the original |
| `Presets.ThemeColor` | src/SvgPreviewOnCode.ts:167-172 | the theme's colour; `PresetColor` states which |
| `Presets.CurrentColor` | src/SvgPreviewOnCode.ts:165-172 | `currentColor \|\| theme colour`; `PresetColor` states its value |
| `Presets.PresetColor` | src/SvgPreviewOnCode.ts:163-186 | without an accepted user `color`, the preset's `color` is a non-empty `currentColor` setting, else `white` on dark and high-contrast themes and `black` on light and high-contrast-light ones |
| `Presets.AddPresets` | src/SvgPreviewOnCode.ts:174-186 | the specification of the entry loop; `AddPresetsGet` and `AddPresetsPrefix` state its result |
| `Presets.ResetPreset` | src/SvgPreviewOnCode.ts:163-186 | the preset a reset builds; the lemmas below state its names, order and colour |
| `Presets.MergePresets` | src/SvgPreviewOnCode.ts:174-186 | the loop over the configured entries builds the same preset as the specification `AddPresets` |
| `Presets.InitialPreset` | src/SvgPreviewOnCode.ts:163-173 | before user entries the preset holds exactly `color` with the current colour |
| `Presets.AddPresetsGet` | src/SvgPreviewOnCode.ts:174-186 | a preset value is the last accepted configured entry for that name, else the initial value |
| `Presets.LastAcceptedIsPresentation` | src/SvgPreviewOnCode.ts:176-181 | only presentation attributes are ever accepted from the configuration |
| `Presets.ResetPresetNames` | src/SvgPreviewOnCode.ts:163-186 | every name in the preset is a presentation attribute |
| `Presets.ResetPresetColorFirst` | src/SvgPreviewOnCode.ts:163-173 | the preset is never empty and `color` is its first property |
| `Presets.AddPresetsPrefix` | src/SvgPreviewOnCode.ts:174-186 | adding entries keeps the existing property order |
| `Presets.UserColorWins` | src/SvgPreviewOnCode.ts:163-186 | a configured `color` entry overrides the theme colour |
| `Presets.RejectedEntryIgnored` | src/SvgPreviewOnCode.ts:176-181 | an entry whose name is not a presentation attribute never reaches the preset |
| `Decorations.Resolve` | src/SvgPreviewOnCode.ts:235-304 | a data URL is shown as is; an svg snippet is a hit or a known error exactly when the previous cache holds a non-empty value for its key, and is rendered otherwise |
| `Decorations.Hover` | src/SvgPreviewOnCode.ts:310-326 | the hover has three entries for an svg snippet (with the settings link) and two for a data URL |
| `Decorations.Step` | src/SvgPreviewOnCode.ts:232-341 | the specification of one loop iteration; the `Step…` lemmas state its effect |
| `Decorations.Run` | src/SvgPreviewOnCode.ts:224-342 | the specification of the loop; the `Run…` lemmas state its result |
| `Decorations.VisitSnippet` | src/SvgPreviewOnCode.ts:232-341 | one loop iteration performs exactly one specification `Step` |
| `Decorations.RunPass` | src/SvgPreviewOnCode.ts:224-342 | the loop over the scanned snippets computes the specification `Run` of the scan |
| `Decorations.Commit` | src/SvgPreviewOnCode.ts:343-351 | an empty next map never stays committed; otherwise the document keeps its previous map or takes the next one |
| `Decorations.StepNext` | src/SvgPreviewOnCode.ts:241-249 | an svg snippet records its value under its key; a data URL leaves the next map alone |
| `Decorations.RunCacheKeys` | src/SvgPreviewOnCode.ts:241-334 | after a pass the next map's keys are exactly the keys of the svg snippets, including failed ones, since a failure never stops the loop |
| `Decorations.RunCacheValues` | src/SvgPreviewOnCode.ts:241-334 | each svg snippet's cache value is the one its resolution produced: the URL, or `error` |
| `Decorations.StepComingNew` | src/SvgPreviewOnCode.ts:297-334 | a step sets `comingNew` exactly when it renders a URL or records an error that was not previously cached |
| `Decorations.RunComingNew` | src/SvgPreviewOnCode.ts:226-334 | a pass brings something new exactly when one of its snippets does |
| `Decorations.ShownSnippets` | src/SvgPreviewOnCode.ts:327-328 | only snippets whose URL was produced are decorated |
| `Decorations.RunDecorations` | src/SvgPreviewOnCode.ts:305-327 | the decorations are, in order, one per shown snippet, over its range, with its hover |
| `Decorations.RendererShape` | src/SvgPreviewOnCode.ts:297-299 | the renderer produces only `data:image/svg+xml;base64,` URLs |
| `Decorations.RunKeepsCacheValid` | src/SvgPreviewOnCode.ts:241-351 | a pass and its commit keep every cached value non-empty (a URL or `error`), which the `if (cached)` test relies on |
| `Decorations.NewValueValid` | src/SvgPreviewOnCode.ts:241-303 | a recorded value is `error` or an svg data URL |
| `Decorations.BringsNewIffUncached` | src/SvgPreviewOnCode.ts:241-334 | with a valid cache, an svg snippet brings something new exactly when its key was not cached |
| `Decorations.CommitTransparent` | src/SvgPreviewOnCode.ts:343-351 | with a valid cache, committing leaves the document's entry equal to the next map when it is not empty, and removes the entry otherwise (skipping the write never hides a change) |
| `Decorations.NothingNewIsCached` | src/SvgPreviewOnCode.ts:241-351 | a pass that brings nothing new only repeats cached values |
| `Decorations.OldValueKept` | src/SvgPreviewOnCode.ts:241-249 | a snippet that brings nothing new is cached and keeps its old value |
| `Decorations.SecondPassReplays` | src/SvgPreviewOnCode.ts:224-351 | a second pass over the same text, under any renderer, shows the same decorations, computes the same map, brings nothing new and leaves the committed cache unchanged |
| `Decorations.HitIgnoresRendering` | src/SvgPreviewOnCode.ts:241-249 | a cache hit or known error does not depend on the renderer, the preset or the size |
| `Decorations.DataUrlShownAsIs` | src/SvgPreviewOnCode.ts:236-315 | a data URL is decorated with its own text as the image, with two hover entries, and touches neither the cache nor `comingNew` |
| `Engine.SectionStart` | src/SvgPreviewOnCode.ts:66 | the first position after a `.` from which the lookbehind match starts |
| `Engine.SectionOf` | src/SvgPreviewOnCode.ts:66 | the section is the text after the first `.` that `(?<=\.).*$` can match to the end, and is absent exactly when there is none |
| `Engine.SectionOfExtensionId` | src/SvgPreviewOnCode.ts:65-66 | the extension id `sugoroku-y.svg-preview-on-code` gives the section `svg-preview-on-code` |
| `Engine.NoDotNoSection` | src/SvgPreviewOnCode.ts:66 | an id without a dot has no section |
| `Engine.Previous` | src/SvgPreviewOnCode.ts:224 | a document has a previous map exactly when the cache holds an entry for it |
| `Engine.CommitTo` | src/SvgPreviewOnCode.ts:343-351 | committing writes only the document's own entry |
| `Engine.DropAll` | src/SvgPreviewOnCode.ts:146-148 | the cache after the deactivate loop; `DropAllEntries` states it |
| `Engine.DropAllEntries` | src/SvgPreviewOnCode.ts:146-148 | after the deactivate loop the cache holds exactly the entries of documents not open, unchanged |
| `Engine.DocumentPass` | src/SvgPreviewOnCode.ts:218-352 | the specification of one document's pass; the three lemmas below state its effect |
| `Engine.DocumentPassLocal` | src/SvgPreviewOnCode.ts:218-352 | a pass touches only its own document's entry; a disabled document gets no decorations and no cache change; otherwise the entry disappears exactly when the pass found no svg snippet |
| `Engine.DocumentPassValid` | src/SvgPreviewOnCode.ts:218-352 | a pass keeps every document's cache valid |
| `Engine.DocumentPassReplays` | src/SvgPreviewOnCode.ts:218-352 | repeating a pass on an unchanged document reproduces its decorations and cache |
| `Engine.UpdateValid` | src/SvgPreviewOnCode.ts:196-204 | `update` keeps every cache valid |
| `Engine.RefreshVisible` | src/SvgPreviewOnCode.ts:205-214 | the specification of the visible-editor loop; `RefreshVisibleCaches` states its effect |
| `Engine.RefreshVisibleCaches` | src/SvgPreviewOnCode.ts:205-214 | refreshing visible editors keeps caches valid, creates entries only for refreshed documents, and refreshes only documents that had an entry before the reset |
| `Engine.SvgPreviewOnCode.constructor` | src/SvgPreviewOnCode.ts:31-59 | a new instance is inactive, without id, section or timer, with an empty cache and the preset and size of `reset` |
| `Engine.SvgPreviewOnCode.Reset` | src/SvgPreviewOnCode.ts:159-187 | reset takes the configured size, clears the cache and rebuilds the preset, and changes nothing else |
| `Engine.SvgPreviewOnCode.Activate` | src/SvgPreviewOnCode.ts:61-78 | activating twice fails and changes nothing; the first activation records the id and its section, resets, marks the instance active and runs `update` on the active editor with an empty cache |
| `Engine.SvgPreviewOnCode.Deactivate` | src/SvgPreviewOnCode.ts:141-148 | deactivating an active instance deactivates it and drops the cache entries of the open documents; deactivating an inactive one changes nothing |
| `Engine.SvgPreviewOnCode.ClearTimeout` | src/SvgPreviewOnCode.ts:189-194 | no timer is pending afterwards |
| `Engine.SvgPreviewOnCode.SvgPreviewDecorations` | src/SvgPreviewOnCode.ts:218-352 | the generator yields the decorations of the document pass and leaves the cache that pass commits |
| `Engine.SvgPreviewOnCode.CommitMap` | src/SvgPreviewOnCode.ts:343-351 | the commit rule is applied to the document's entry alone |
| `Engine.SvgPreviewOnCode.Update` | src/SvgPreviewOnCode.ts:196-204 | `update` cancels the timer, and decorates the editor's document when there is an editor |
| `Engine.SvgPreviewOnCode.UpdateVisibleEditors` | src/SvgPreviewOnCode.ts:205-214 | the state is reset, then each visible editor whose document was cached before the reset is updated in order; the timer is cancelled once one is updated |
| `Engine.SvgPreviewOnCode.RefreshEditors` | src/SvgPreviewOnCode.ts:208-213 | the loop over visible editors computes the specification `RefreshVisible` |
| `Engine.SvgPreviewOnCode.RefreshEditor` | src/SvgPreviewOnCode.ts:209-212 | one iteration skips a document not cached before the reset and updates one that was |
| `Engine.SvgPreviewOnCode.OnDidChangeTextDocument` | src/SvgPreviewOnCode.ts:89-101 | a change to the active editor's document (re)arms the timer for it; other changes leave the timer alone |
| `Engine.SvgPreviewOnCode.FireTimeout` | src/SvgPreviewOnCode.ts:99-101 | when the timer fires, the editor it was armed for is updated and no timer remains |
| `Template.Tokenize` | images/converter/LocaleMap.d.ts:7-26 | a template without `$` is one literal, and only such a template is; every placeholder key is non-empty and free of `$`, `{` and `}` |
| `Template.TokenizeAfter` | images/converter/LocaleMap.d.ts:9-24 | the tokens after a `$` hold only plain placeholder keys |
| `Template.Keys` | images/converter/LocaleMap.d.ts:29-38 | the template parameters are exactly the keys of the placeholder tokens |
| `Template.TemplateParameters` | images/converter/LocaleMap.d.ts:36-38 | the keys of the placeholder tokens; `Keys` and `ParametersArePlainKeys` state them |
| `Template.ParametersArePlainKeys` | images/converter/LocaleMap.d.ts:36-38 | every template parameter is a key the runtime pattern `\{([^${}]*)\}` can capture |
| `Template.Substitute` | images/converter/index.js:32-34 | the runtime `replace`; `SubstituteIsInstantiate` ties it to the type-level tokens |
| `Template.Instantiate` | images/converter/LocaleMap.d.ts:41-51 | the text the tokens stand for under a parameter map; `InstantiateFits` states its type |
| `Template.Fits` | images/converter/LocaleMap.d.ts:41-51 | the template literal type `ConcatTokens` of the tokens |
| `Template.SubstituteIsInstantiate` | images/converter/LocaleMap.d.ts:7-26 | the runtime `replace` with `$$`, `${key}` and unmatched `$` equals instantiating the type-level tokens, for every template and parameter map |
| `Template.SubstituteAfterIsInstantiate` | images/converter/LocaleMap.d.ts:9-24 | the same equivalence from any `$` on |
| `Template.EscapeCase` | images/converter/LocaleMap.d.ts:11-12 | `$$` becomes a literal `$` in both readings |
| `Template.EmptyKeyCase` | images/converter/LocaleMap.d.ts:16-17 | `${}` stays literal in both readings |
| `Template.BrokenKeyCase` | images/converter/LocaleMap.d.ts:19-20 | a key holding `$` or `{` leaves `${` literal and rescans after it |
| `Template.PlaceholderCase` | images/converter/LocaleMap.d.ts:21-22 | a plain key is replaced by its parameter in both readings |
| `Template.LoneDollarCase` | images/converter/LocaleMap.d.ts:23-24 | any other `$` stays literal |
| `Template.SubstituteKey` | images/converter/index.js:32-34 | a captured key is replaced by its parameter, or by `''` when missing; `${}` is kept |
| `Template.SubstituteEscape` | images/converter/index.js:32-34 | `$$` is replaced by `$` |
| `Template.SubstituteBrokenKey` | images/converter/index.js:32-34 | a `${` whose key holds `$` or `{` is left as is, and matching resumes after it |
| `Template.SubstituteLoneDollar` | images/converter/index.js:32-34 | a `$` that starts neither `$$` nor `${…}` is copied |
| `Template.InstantiateLocal` | images/converter/LocaleMap.d.ts:41-51 | instantiation only reads the parameters of its placeholders |
| `Template.SubstituteLocal` | images/converter/index.js:32-34 | the replaced text depends only on the parameters the template names |
| `Template.ParametersNeededIff` | images/converter/LocaleMap.d.ts:80-86 | a template without parameters ignores the parameter map; a template with some gives a different text for some parameter map, so the required `params` argument is needed |
| `Template.InstantiateFits` | images/converter/LocaleMap.d.ts:41-51 | the instantiated text matches `ParameterizedTemplate`: the literals in order with any strings in between |
| `Template.SubstituteFits` | images/converter/LocaleMap.d.ts:41-51 | the runtime result of substituting into a message has the message's `ParameterizedTemplate` type |
| `Template.EscapedMessageChanges` | images/converter/LocaleMap.d.ts:95-98 | substitution turns `a$$b` into `a$b`, so the result is not always the message itself, unlike the return type this overload declares |
| `Template.Mismatch` | images/converter/LocaleMap.d.ts:54-70 | the parameter difference of a translation is empty exactly when message and translation have the same template parameters |
| `Template.ValidLocaleMap` | images/converter/LocaleMap.d.ts:54-70 | `ValidationLocaleMap`: every translation has its message's parameters |
| `Template.ValidLocaleMaps` | images/converter/LocaleMap.d.ts:73-77 | `ValidationLocaleMaps`: every language's map is valid |
| `Template.TokenizeEscape` | images/converter/LocaleMap.d.ts:11-12 | `a$$b` tokenizes as `a$` and `b` |
| `Template.TokenizeEmptyKey` | images/converter/LocaleMap.d.ts:16-17 | `${}` tokenizes as the literal `${}` |
| `Template.TokenizeBrokenKey` | images/converter/LocaleMap.d.ts:19-20 | `${$}` tokenizes as `${`, `$`, `}` |
| `Template.TokenizeLoneDollar` | images/converter/LocaleMap.d.ts:23-24 | `$}` tokenizes as `$`, `}` |
| `Template.TokenizePlaceholder` | images/converter/LocaleMap.d.ts:21-22 | `at ${k}!` tokenizes as `at `, placeholder `k`, `!` |
| `Localizer.LastUnderscore` | images/converter/index.js:28 | the backtracking point of `(\w+)(?=_)`: the last `_` inside the word run |
| `Localizer.Language` | images/converter/index.js:28 | the language is the longest word-character prefix followed by `_`, and is empty exactly when there is none |
| `Localizer.LanguageExamples` | images/converter/index.cjs:19 | `ja_JP` gives `ja`, `ja` gives no language, `zh_Hant_TW` gives `zh_Hant` |
| `Localizer.Translation` | images/converter/index.js:26-31 | the text chosen for the locale; `TranslationSource` states which |
| `Localizer.TranslationSource` | images/converter/index.js:29-31 | the text is the locale's entry, else the language's entry, else the message itself |
| `Localizer.TranslationKeepsParameters` | images/converter/LocaleMap.d.ts:73-77 | with maps that pass the validation type, the chosen text has the message's parameters |
| `Localizer.LocalizedNeedsMessageParameters` | images/converter/LocaleMap.d.ts:80-93 | with valid maps, the localized text depends only on the parameters the message names |
| `Localizer.Localized` | images/converter/index.js:26-35 | the result of a `localize` call; the lemmas below state what it depends on and its type |
| `Localizer.UntranslatedFitsMessage` | images/converter/LocaleMap.d.ts:41-51 | an untranslated message comes back with the message's own `ParameterizedTemplate` type |
| `Localizer.Localize.constructor` | images/converter/index.js:17-19 | `localizer(map, locale)` stores the maps and the locale |
| `Localizer.Localize.SetLocale` | images/converter/index.js:72 | assigning `localize.locale` changes the locale used afterwards |
| `Localizer.Localize.Call` | images/converter/index.js:26-35 | a call translates under the current locale (`''` when unset) and fills the template the way its tokens say |
| `Converter.TypeName` | images/converter/index.js:100 | the `--type` choices `webp`, `jpeg`, `png` |
| `Converter.ParseSize` | images/converter/index.js:184-185 | a size parses exactly when it is `W` or `WxH` in digits; the height defaults to the width |
| `Converter.ParseSizeRoundTrip` | images/converter/index.js:184-185 | parsing `WxH` gives back W and H, and `W` gives W twice |
| `Converter.DestinationExtension` | images/converter/index.js:125 | a destination is accepted exactly when it ends in `.png`, `.jpg`, `.jpeg` or `.webp` ignoring case, and the extension found is the one it ends with |
| `Converter.WordSuffixStart` | images/converter/index.js:173 | the start of the trailing `\w+` run |
| `Converter.ReplaceExtension` | images/converter/index.js:172-175 | `replace(/\.\w+$/i, ext)` replaces a trailing `.word`, and leaves a name without one unchanged |
| `Converter.SupportedSource` | images/converter/index.js:114-123 | the source extensions chrome can read; `SupportedSourceHasExtension` states what the default destination needs of it |
| `Converter.Check` | images/converter/index.js:106-148 | the yargs `check`; `PrepareSucceedsIff` states when it and the later steps pass |
| `Converter.DeriveType` | images/converter/index.js:156-169 | the type derivation; `DeriveFromExtension` and `PrepareType` state its result |
| `Converter.Prepare` | images/converter/index.js:106-185 | the checks and derivations together; the `Prepare…` lemmas state the result |
| `Converter.DeriveFromExtension` | images/converter/index.js:156-169 | without `--type`, the type is the one the accepted destination's extension names |
| `Converter.PrepareNeverUnreachable` | images/converter/index.js:166-167 | the `unreachable` branch is indeed never reached after the check |
| `Converter.SupportedSourceHasExtension` | images/converter/index.js:114-175 | every accepted source has an extension the default destination replaces |
| `Converter.PrepareSucceedsIff` | images/converter/index.js:106-183 | the arguments are accepted exactly when every check passes and the destination, given or derived from the source and the type, is not the source |
| `Converter.PrepareType` | images/converter/index.js:133-169 | the type is `--type`, else the destination's extension, else png, and always agrees with the destination's first letter |
| `Converter.PrepareDestination` | images/converter/index.js:170-183 | the destination is the given one or the source with its extension replaced for the type, and never equals the source |
| `Converter.PrepareSize` | images/converter/index.js:184-185 | a width and height exist exactly when `--size` is given, are what it says, and the height defaults to the width |
| `Converter.PrepareWithoutOptions` | images/converter/index.js:156-183 | with only a source, the result is a png next to it, or the identical-files error when the source already is `.png` |
| `Converter.PrepareDefaultExample` | images/converter/index.js:156-183 | `icon.svg` converts to `icon.png` |
| `Converter.PrepareIdenticalExample` | images/converter/index.js:176-183 | `icon.png` without options is refused as identical |
| `Converter.DataUrlOf` | images/converter/index.js:292-294 | a data URL decodes back to its payload, and a text payload to its text |
| `SvgToPng.Check` | images/converter/index.cjs:86-112 | the yargs `check`; `PrepareSucceedsIff` states when it passes |
| `SvgToPng.DefaultDestination` | images/converter/index.cjs:119 | `source.replace(/\.svg$/i, '.png')`; `DefaultDestinationIsPng` and `PrepareDestination` state its result |
| `SvgToPng.DefaultDestinationIsPng` | images/converter/index.cjs:119 | the default destination of a `.svg` source ends in `.png` |
| `SvgToPng.Prepare` | images/converter/index.cjs:86-127 | the check, the destination default and the size parse together; the lemmas below state the result |
| `SvgToPng.PrepareSucceedsIff` | images/converter/index.cjs:80-127 | the arguments are accepted exactly when the size (default `192x192`) is `W` or `WxH`, the source ends in `.svg` and exists, and a given destination ends in `.png`; `unreachable` is never thrown |
| `SvgToPng.DefaultSizeParses` | images/converter/index.cjs:80-123 | the default size is 192 by 192 |
| `SvgToPng.PrepareDestination` | images/converter/index.cjs:99-121 | the destination is the given one or the source with `.png`, and never equals the source, which is why this script has no identical-files check |
| `SvgToPng.PrepareSize` | images/converter/index.cjs:122-127 | the width and height are what the size says, 192 by 192 by default, and the height defaults to the width |

## Left out

- VS Code itself: decoration types, `setDecorations`, `Range`/`positionAt`, `MarkdownString`, subscriptions and `dispose`. The model keeps decorations as character ranges and hovers as strings; the localized labels (`localeString.ts`) are parameters.
- Event wiring in `activate` (src/SvgPreviewOnCode.ts:81-138). The handlers' bodies are the methods `Update`, `UpdateVisibleEditors`, `OnDidChangeTextDocument` and `FireTimeout`. Which events reach them, and the `affectsConfiguration(section)` filter, are host behaviour.
- Real time: `setTimeout`/`clearTimeout` with 500 ms. The pending timer is `timeout: Option<DocumentId>`, and `FireTimeout` is the callback running.
- fast-xml-parser: parse and build are function values of `XmlTree.XmlLibrary`. A parse error is `None`. Attribute values are text or numbers.
- `Number(…)` coercion and IEEE floating point. Dimensions are `real`, and `XmlLibrary.toNumber` stands for the coercion.
- UTF-16: positions count Dafny characters, not UTF-16 code units. `Buffer.from` encodes each character as one code point.
- WeakMap reclamation: the cache is a map keyed by document id, so a closed document's entry is never reclaimed by the garbage collector.
- The JavaScript `in` operator and property lookup see inherited keys such as `toString`: `isSvgPresentationAttribute('toString')` is true in the source, and `map[locale]` and `params?.[key]` find prototype members. The model uses plain set and map membership.
- `console.error` logging of unexpected exceptions in the pass (src/SvgPreviewOnCode.ts:337-340). Every exception is treated like the ignored error.
- The converters' I/O: puppeteer, file reads and writes, `mkdir`, `console.log`, `process` exit and the async wrapper. `existsSync` is a boolean parameter.
- yargs parsing: `strict()`, the `choices` check of `--type` (the type is already an `ImageType`), and `yargs.locale()` (an input to `SetLocale`).
- A `localize` call without `params` is modelled as the empty parameter map. That gives the same result, because `params?.[key]` is then `undefined`.
- The TypeScript type machinery (`Equal`, the error tuple of `ValidationLocaleMap`, the two overloads of `LocalizeFunction`). It is modelled by its effect: `Template.Mismatch`, `Template.ValidLocaleMaps` and the lemmas about `Fits`.
- `extension.ts`, the tests, `tools/` and the lint configuration are not part of this model.
- `PresentationAttributes`: the table is a set literal. There is no lemma that it has exactly 60 names; the range lemmas cover its shape.
- `Decorations.Commit`: its own contract is weaker than the rule at src/SvgPreviewOnCode.ts:343-351. The exact effect of a commit, given a valid cache, is `Decorations.CommitTransparent`.

## Notes on the source

- The overload of `LocalizeFunction` for messages missing from the maps (images/converter/LocaleMap.d.ts:95-98) declares the message type itself as the result. At run time the substitution still applies: `a$$b` comes back as `a$b` (`Template.EscapedMessageChanges`), and a placeholder is replaced by its parameter. What does hold is the message's `ParameterizedTemplate` type (`Template.SubstituteFits`, `Localizer.UntranslatedFitsMessage`).

- `deactivate` (src/SvgPreviewOnCode.ts:141-150) does not cancel a pending timer. The model keeps this: `Deactivate` leaves `timeout` as it is.
- Only the first parsed node's attributes are checked for the SVG namespace (src/SvgPreviewOnCode.ts:265-269). The tag name of that node is not checked, and neither are any later nodes.
- A document's entry is replaced only when something new was produced or the number of entries changed. Under a valid cache this never hides a change (`Decorations.CommitTransparent`). A map of the same size with no new value holds only old values, each under a key it already had, so it equals the previous map.
