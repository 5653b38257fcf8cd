# Sync Metrics Keys, modelled in Dafny

Sync Metrics Keys is an extension for the Glyphs font editor. In Glyphs a glyph's
left or right side bearing can be given by a *metrics key*, an expression such
as `=n`, `=n-20` or `=|h` that refers to other glyphs. The editor recomputes such
a bearing only when asked. The extension asks for it automatically. On every
redraw of the edit view it compares the active layer's bearings with a snapshot
of remembered bearings (`lastLSB`, `lastRSB`), and may then ask the host to
re-sync the bearings of the glyphs whose keys refer to the active glyph.

The repository ships the engine twice, each time as a class `MetricsAutoUpdate`:

- **The general plugin** (`SyncPlugin`). It runs from a draw-foreground callback.
  It tokenizes each glyph's keys with the pattern
  `(\.?[A-Z]+(?:[.\-_][A-Z]+)*)` (case-insensitive). From the tokens it keeps a
  reverse-dependency cache that maps each referenced name to the glyphs whose
  keys mention that name. A glyph's entries are refreshed by purge-then-reinsert.
- **The reporter** (`SyncReporter`). It runs from a reporter's `foreground` hook.
  It keeps a negative cache of glyphs that have no keys at all. It finds
  dependents by scanning the whole font for keys that contain the active
  glyph's name.

Both variants share the change monitor's rule for a glyph switch, that is, a
new active glyph name. For each side whose bearing is reported and differs
from the snapshot:

- a side without a key is adopted into the snapshot and flags an update;
- a side with a key only re-syncs the active layer, and the snapshot keeps the
  old value.

The snapshot that a switch compares with holds the bearings of the previous glyph.
The variants differ on redraws of the same glyph:

- **The plugin** adopts both bearings, re-syncs the layer and flags an update
  whenever either bearing differs from the snapshot, keyed or not.
- **The reporter** acts only when a keyed side differs. It then adopts both
  bearings and re-syncs the layer, but never flags an update. An update, and
  so a re-sync of the dependents, happens only on a switch.

Modules:

| module | file | contents |
|---|---|---|
| `Wrappers` | `wrappers.dfy` | `Option` |
| `Seqs` | `seqs.dfy` | Python list operations used by both variants (`remove`, filtered appends), plus a substring search |
| `Font` | `font.dfy` | glyphs, layers, the snapshot, and the glyph-switch rule shared by both monitors |
| `KeyTokens` | `key_tokens.dfy` | the plugin's tokenizer, as a greedy left-to-right scanner |
| `SyncPlugin` | `sync_plugin.dfy` | the plugin: the cache as a value, the monitor's decision, and the class |
| `SyncReporter` | `sync_reporter.dfy` | the reporter: the font scan, the negative cache, the monitor's decision, and the class |

Modelling choices:

- **State.** Each class keeps the fields its `start` sets up.
- **The font.** A font is a `seq<Glyph>` passed to the methods that read it.
- **Host recompute calls.** Every host `syncMetrics()` call is appended to the field `syncLog`, as the name of the glyph re-synced.
- **Layer lookup.** `glyph.layers[selectedFontMaster.id]` can fail, and the failure is swallowed. The model takes it as a parameter `available`: the names of the glyphs whose lookup succeeds.
- **Value-level definitions.** The cache methods and the scan are proved equal to pure definitions, which carry the lemmas:
  - `SyncPlugin.Purged`: `purgeLinkFromCache`;
  - `SyncPlugin.Refresh`: the plugin's `cacheGlyphKeys`;
  - `SyncPlugin.RefreshAll`: the plugin's `cacheAllGlyphKeys`;
  - `SyncReporter.Referencing`: `findGlyphsWithMetricsKey`;
  - `SyncReporter.SideRefers`: its per-side pattern test, built on `Seqs.Contains`, the unanchored `re.search`;
  - `SyncReporter.NoKeyNames`: the reporter's `cacheAllGlyphKeys`;
  - `SyncReporter.NegRefresh`: the reporter's `cacheGlyphKeys`.
- **Tick methods.** Each redraw method is proved against a pure reaction function: `Font.SwitchReaction`, `SyncPlugin.PluginReaction` or `SyncReporter.ReporterReaction`.

Where the code behaves differently from what its comments suggest, or from what one would expect of the feature, the model follows the code:

- **One token, not two.** The plugin's pattern treats `-` as a joiner, so `A.sc-B.sc` is a single token. `ntilde` is the token `ntilde`, not `n`.
- **`ntilde` refers to `n`.** The reporter builds the pattern `[^a-zA-Z]*(name)+[^a-zA-Z]*`. Both guards can match the empty string, so a key refers to a glyph exactly when it contains the glyph's name as a substring. The comment at
  `SyncMetricsKeys.glyphsReporter/Contents/Resources/plugin.py:94-99` promises that `ntilde` does not refer to `n`, but the code matches it.
- **"Really change" means "differs from the snapshot".** The comment at
  `SyncMetricsKeys.glyphsPlugin/Contents/Resources/plugin.py:240` (and at
  `SyncMetricsKeys.glyphsReporter/Contents/Resources/plugin.py:175`) says an
  update fires only when the glyph's LSB or RSB really change. On a switch the
  snapshot holds the previous glyph's bearings. Switching from a glyph with LSB 50
  to an unedited, unkeyed glyph with LSB 60 therefore flags an update in both
  variants (`Font.SwitchComparesPrevious`). The reporter, in turn, never propagates
  an edit made on the same glyph (`SyncReporter.ReporterPropagates`).
- **Keyed sides reach the plugin's update one tick late.** The comment at
  `SyncMetricsKeys.glyphsPlugin/Contents/Resources/plugin.py:245-247` says only a
  numeric bearing, not a metrics key, can trigger an update. A switch onto a glyph
  whose keyed side differs from the snapshot re-syncs the layer and leaves the
  snapshot stale. The next redraw takes the same-glyph branch, which ignores the
  keys and flags an update (`SyncPlugin.PluginKeyedSideLate`).
- **The reporter keeps stale unkeyed bearings.** Its same-glyph branch
  (`SyncMetricsKeys.glyphsReporter/Contents/Resources/plugin.py:203`) tests only
  the keyed sides. An edit to an unkeyed side of the active glyph leaves the
  snapshot as it was (`SyncReporter.ReporterIgnoresFreeEdit`).
- **No clearing on rebuild.** The plugin's `cacheAllGlyphKeys` does not clear the cache before it rebuilds. It refreshes every glyph on top of what is there.

## Model

| member | source | states |
|---|---|---|
| Seqs.RemoveFirst | SyncMetricsKeys.glyphsPlugin/Contents/Resources/plugin.py:218 | `list.remove`: one element shorter when the value is present, unchanged otherwise. No other value's membership changes. |
| Seqs.RemoveFirstDropsFirst | SyncMetricsKeys.glyphsReporter/Contents/Resources/plugin.py:153 | `list.remove` takes out exactly the first occurrence of the value and keeps every other element in order. |
| Seqs.RemoveFirstOfNoDup | SyncMetricsKeys.glyphsPlugin/Contents/Resources/plugin.py:214-218 | In a list without duplicates, removing the first occurrence is the same as removing every occurrence. |
| Seqs.Available | SyncMetricsKeys.glyphsPlugin/Contents/Resources/plugin.py:136-143 | The recompute requests that succeed: exactly the listed glyphs whose layer lookup succeeds. |
| Seqs.AvailableAppend | SyncMetricsKeys.glyphsPlugin/Contents/Resources/plugin.py:131-132 | The requests of a loop over two runs are the first run's requests followed by the second's, so list order is kept. |
| Seqs.AvailableAll | SyncMetricsKeys.glyphsPlugin/Contents/Resources/plugin.py:131-132 | When every layer lookup succeeds, the requests are the whole list, in list order. |
| Seqs.ContainsIff | SyncMetricsKeys.glyphsReporter/Contents/Resources/plugin.py:100-106 | The unanchored search succeeds exactly when the name occurs at some position of the key. |
| Font.HasMetricsKeys | SyncMetricsKeys.glyphsReporter/Contents/Resources/plugin.py:125-129 | `glyphHasMetricsKeys`: true exactly when the left or the right key is non-null. It is a predicate defined by that test; the lemmas below that use it carry its meaning. |
| Font.SwitchSnapshotRules | SyncMetricsKeys.glyphsPlugin/Contents/Resources/plugin.py:241-266 | On a glyph switch the new name becomes the last glyph. A keyed side or an unreported bearing never enters the snapshot. A reported, unkeyed side whose bearing moved takes the layer's bearing and flags an update. A side's snapshot changes only to the layer's bearing. An update is flagged exactly when the snapshot's bearings change. |
| Font.SwitchLocalSyncs | SyncMetricsKeys.glyphsReporter/Contents/Resources/plugin.py:183-201 | On a switch the layer is re-synced locally once for each keyed side whose reported bearing moved: no times when neither did, once when exactly one did, twice when both did. A glyph keyed on both sides never flags an update. |
| Font.SwitchComparesPrevious | SyncMetricsKeys.glyphsPlugin/Contents/Resources/plugin.py:240-252 | A switch compares the new glyph with the previous glyph's bearings. Moving from `A` (LSB 50) onto an unedited, unkeyed `B` with LSB 60 adopts 60 and flags an update. |
| KeyTokens.LetterRunEnd | SyncMetricsKeys.glyphsPlugin/Contents/Resources/plugin.py:161 | The greedy `[A-Z]+` run: only letters, and it ends at the end of the string or before a non-letter. |
| KeyTokens.NameEnd | SyncMetricsKeys.glyphsPlugin/Contents/Resources/plugin.py:161 | The greedy `[A-Z]+(?:[.\-_][A-Z]+)*`: the span has the shape of a name body. No letter, and no joiner followed by a letter, can extend it. |
| KeyTokens.MatchEnd | SyncMetricsKeys.glyphsPlugin/Contents/Resources/plugin.py:161 | A match starts at a position exactly when a letter is there, or a dot followed by a letter. A match has positive length. |
| KeyTokens.Spans | SyncMetricsKeys.glyphsPlugin/Contents/Resources/plugin.py:164 | `re.findall` spans lie within the string, are non-empty, and are ordered without overlap. |
| KeyTokens.FindAll | SyncMetricsKeys.glyphsPlugin/Contents/Resources/plugin.py:161-164 | Every token found has the form `\.?[A-Za-z]+([.\-_][A-Za-z]+)*`. |
| KeyTokens.BodyAtIsNameBody | SyncMetricsKeys.glyphsPlugin/Contents/Resources/plugin.py:161 | A span with the shape of a name body holds a name body. |
| KeyTokens.SpansAreTokens | SyncMetricsKeys.glyphsPlugin/Contents/Resources/plugin.py:161-164 | The text of every span is a token. |
| KeyTokens.SpansNotAfterLetter | SyncMetricsKeys.glyphsPlugin/Contents/Resources/plugin.py:164 | No letter stands directly before a match. |
| KeyTokens.SpansCoverLetters | SyncMetricsKeys.glyphsPlugin/Contents/Resources/plugin.py:164 | Every letter from the resume position on lies inside some match. |
| KeyTokens.TokensAreMaximal | SyncMetricsKeys.glyphsPlugin/Contents/Resources/plugin.py:161-164 | Each token is well formed and is the text of its span. No letter directly precedes or follows it in the key. |
| KeyTokens.TokensCoverLetters | SyncMetricsKeys.glyphsPlugin/Contents/Resources/plugin.py:164 | No letter of a key is left outside a token. |
| KeyTokens.NoTokensIffNoLetters | SyncMetricsKeys.glyphsPlugin/Contents/Resources/plugin.py:161-164 | A key yields no tokens exactly when it holds no ASCII letter. |
| KeyTokens.ExampleNtilde | SyncMetricsKeys.glyphsPlugin/Contents/Resources/plugin.py:161 | `ntilde` yields `["ntilde"]`. |
| KeyTokens.ExampleOffset | SyncMetricsKeys.glyphsPlugin/Contents/Resources/plugin.py:161 | `n-20` yields `["n"]`. |
| KeyTokens.ExampleMirror | SyncMetricsKeys.glyphsPlugin/Contents/Resources/plugin.py:161 | `=\|h` yields `["h"]`. |
| KeyTokens.ExampleSuffixedChain | SyncMetricsKeys.glyphsPlugin/Contents/Resources/plugin.py:161 | `A.sc-B.sc` yields the single token `["A.sc-B.sc"]`. |
| KeyTokens.ExampleEmpty | SyncMetricsKeys.glyphsPlugin/Contents/Resources/plugin.py:161 | The empty key yields `[]` (any key without letters does, by `NoTokensIffNoLetters`). |
| SyncPlugin.SideTokens | SyncMetricsKeys.glyphsPlugin/Contents/Resources/plugin.py:163-171 | An absent key contributes no tokens. A present key contributes only well-formed tokens. |
| SyncPlugin.GetGlyphMetricsKeys | SyncMetricsKeys.glyphsPlugin/Contents/Resources/plugin.py:154-173 | The left key's tokens followed by the right key's, duplicates kept. Empty when the glyph has no keys. Every element is a token. |
| SyncPlugin.RefreshIndexes | SyncMetricsKeys.glyphsPlugin/Contents/Resources/plugin.py:187-208 | After `cacheGlyphKeys`, the glyph is listed under a name exactly when its keys refer to that name. Every referenced name has a list, and no key is ever dropped. |
| SyncPlugin.RefreshFrame | SyncMetricsKeys.glyphsPlugin/Contents/Resources/plugin.py:187-218 | `cacheGlyphKeys` changes no other glyph's membership in any list. |
| SyncPlugin.RefreshNoDup | SyncMetricsKeys.glyphsPlugin/Contents/Resources/plugin.py:202-208 | `cacheGlyphKeys` keeps every list free of duplicates. |
| SyncPlugin.RefreshIdempotent | SyncMetricsKeys.glyphsPlugin/Contents/Resources/plugin.py:187-218 | A second `cacheGlyphKeys` of the same glyph yields the very cache the first one gave. |
| SyncPlugin.RefreshWithoutLinks | SyncMetricsKeys.glyphsPlugin/Contents/Resources/plugin.py:190-194 | For a glyph without links, `cacheGlyphKeys` is the purge alone. |
| SyncPlugin.RefreshStep | SyncMetricsKeys.glyphsPlugin/Contents/Resources/plugin.py:200-208 | One iteration of the insertion loop (create the list if missing, append if absent) extends the refresh by one link. |
| SyncPlugin.RefreshMember | SyncMetricsKeys.glyphsPlugin/Contents/Resources/plugin.py:187-208 | After a refresh, the glyph is listed under a name exactly when it is referenced. Any other glyph is listed exactly as before. |
| SyncPlugin.RefreshAllMember | SyncMetricsKeys.glyphsPlugin/Contents/Resources/plugin.py:178-180 | After `cacheAllGlyphKeys` on a font with unique names, each glyph is listed under exactly the names its keys refer to. |
| SyncPlugin.RefreshAllIndexes | SyncMetricsKeys.glyphsPlugin/Contents/Resources/plugin.py:178-184 | The index invariant for every glyph of the font after the rebuild. |
| SyncPlugin.RefreshAllFrame | SyncMetricsKeys.glyphsPlugin/Contents/Resources/plugin.py:178-180 | The rebuild leaves glyphs that are not in the font where they were. |
| SyncPlugin.RefreshAllNoDup | SyncMetricsKeys.glyphsPlugin/Contents/Resources/plugin.py:178-180 | The rebuild keeps every list free of duplicates. |
| SyncPlugin.PluginSameGlyph | SyncMetricsKeys.glyphsPlugin/Contents/Resources/plugin.py:267-273 | On the same glyph, an update is flagged exactly when either bearing differs from its snapshot. It then adopts both bearings and re-syncs the layer once; otherwise nothing happens. |
| SyncPlugin.PluginPropagates | SyncMetricsKeys.glyphsPlugin/Contents/Resources/plugin.py:241-275 | When the plugin propagates: after a switch, exactly when a reported, unkeyed side's bearing moved; on the same glyph, exactly when either bearing differs from its snapshot. |
| SyncPlugin.PluginSettles | SyncMetricsKeys.glyphsPlugin/Contents/Resources/plugin.py:241-273 | Every drawing-layer tick makes the glyph the last glyph. With the layer unchanged, the second tick stores the layer's bearings and the third does nothing. |
| SyncPlugin.PluginKeyedSideLate | SyncMetricsKeys.glyphsPlugin/Contents/Resources/plugin.py:245-275 | After a switch onto a glyph whose keyed left side moved, the first tick only re-syncs the layer and keeps the stale bearing. The next tick, on the same glyph, flags an update. |
| SyncPlugin.PurgeList | SyncMetricsKeys.glyphsPlugin/Contents/Resources/plugin.py:215-218 | Removing while iterating leaves other glyphs' membership alone. In a list without duplicates it removes the glyph entirely. |
| SyncPlugin.MetricsAutoUpdate.constructor | SyncMetricsKeys.glyphsPlugin/Contents/Resources/plugin.py:50-55 | No snapshot, no cache built, an empty cache, and no recompute calls. |
| SyncPlugin.MetricsAutoUpdate.SyncGlyphMetrics | SyncMetricsKeys.glyphsPlugin/Contents/Resources/plugin.py:136-143 | One recompute request for the glyph if its layer lookup succeeds. A failed lookup is swallowed. |
| SyncPlugin.MetricsAutoUpdate.UpdateMetrics | SyncMetricsKeys.glyphsPlugin/Contents/Resources/plugin.py:114-132 | One request per element of `cache[name]`, in list order. None when the name is not cached. |
| SyncPlugin.MetricsAutoUpdate.PurgeLinkFromCache | SyncMetricsKeys.glyphsPlugin/Contents/Resources/plugin.py:211-218 | The glyph leaves every list. Keys and the no-duplicate invariant are kept. |
| SyncPlugin.MetricsAutoUpdate.CacheGlyphKeys | SyncMetricsKeys.glyphsPlugin/Contents/Resources/plugin.py:187-208 | The new cache is the purge-then-reinsert refresh for the glyph's tokens. The no-duplicate invariant is kept. |
| SyncPlugin.MetricsAutoUpdate.CacheAllGlyphKeys | SyncMetricsKeys.glyphsPlugin/Contents/Resources/plugin.py:178-184 | Every glyph of the font is refreshed in font order, and the cache is marked as built. |
| SyncPlugin.MetricsAutoUpdate.TrackBearings | SyncMetricsKeys.glyphsPlugin/Contents/Resources/plugin.py:241-273 | On a drawing layer, the last glyph, the bearing snapshots, the update flag and the local re-syncs are exactly those the plugin's reaction decides. |
| SyncPlugin.MetricsAutoUpdate.SyncMetricsKeys | SyncMetricsKeys.glyphsPlugin/Contents/Resources/plugin.py:222-281 | An empty layer changes nothing. Otherwise the cache is built on the first tick. A background layer then leaves the snapshot and the log alone. A drawing layer takes the snapshot the reaction decides and logs its local re-syncs. On an update it refreshes the glyph's cache entry and only then requests the refreshed dependents. |
| SyncReporter.SideRefersIsContainment | SyncMetricsKeys.glyphsReporter/Contents/Resources/plugin.py:100-114 | A side refers to the key glyph exactly when its non-null key contains the name as a substring. The equality test adds nothing. |
| SyncReporter.NtildeRefersToN | SyncMetricsKeys.glyphsReporter/Contents/Resources/plugin.py:94-106 | The key `ntilde` refers to the glyph `n`. |
| SyncReporter.Hits | SyncMetricsKeys.glyphsReporter/Contents/Resources/plugin.py:86-114 | One glyph contributes at most two entries, all of them that glyph. |
| SyncReporter.ReferencingMembers | SyncMetricsKeys.glyphsReporter/Contents/Resources/plugin.py:83-114 | The scan returns exactly the glyphs of the font that refer to the key on some side, except the key glyph itself and the glyphs cached as keyless. |
| SyncReporter.ReferencingAppend | SyncMetricsKeys.glyphsReporter/Contents/Resources/plugin.py:83-114 | The results follow font order: scanning two runs gives the first run's results, then the second's. |
| SyncReporter.NegativeCacheSound | SyncMetricsKeys.glyphsReporter/Contents/Resources/plugin.py:90-92 | Skipping the glyphs of the negative cache is only a shortcut. When every glyph the cache names has no keys (`glyphHasMetricsKeys` is false), the scan finds exactly what it finds without the cache. |
| SyncReporter.ReferencingCount | SyncMetricsKeys.glyphsReporter/Contents/Resources/plugin.py:104-114 | Each glyph is returned once per referring side for each time it occurs in the font. |
| SyncReporter.NoKeyNamesMember | SyncMetricsKeys.glyphsReporter/Contents/Resources/plugin.py:134-137 | The built negative cache lists a name exactly when a glyph of that name has both keys null. |
| SyncReporter.NoKeyNamesNoDup | SyncMetricsKeys.glyphsReporter/Contents/Resources/plugin.py:134-137 | Built from a font with unique names, the negative cache has no duplicates. |
| SyncReporter.NegRefreshExact | SyncMetricsKeys.glyphsReporter/Contents/Resources/plugin.py:149-156 | After `cacheGlyphKeys`, the glyph is listed exactly when it has no keys. Other entries are untouched, and no duplicates arise. |
| SyncReporter.ReporterSameGlyph | SyncMetricsKeys.glyphsReporter/Contents/Resources/plugin.py:176-210 | An update is flagged only on a glyph switch. On the same glyph the layer is re-synced exactly when a keyed side's bearing differs. Both snapshots are then overwritten; otherwise nothing happens. |
| SyncReporter.ReporterPropagates | SyncMetricsKeys.glyphsReporter/Contents/Resources/plugin.py:176-210 | When the reporter propagates: only after a switch, and then exactly when a reported, unkeyed side's bearing moved. |
| SyncReporter.ReporterSettles | SyncMetricsKeys.glyphsReporter/Contents/Resources/plugin.py:176-207 | Every drawing-layer tick makes the glyph the last glyph. With the layer unchanged, the third tick does nothing. |
| SyncReporter.ReporterIgnoresFreeEdit | SyncMetricsKeys.glyphsReporter/Contents/Resources/plugin.py:202-207 | On the same glyph, when no keyed side differs from the snapshot, a changed unkeyed bearing leaves the snapshot as it was, with no local sync and no update. |
| SyncReporter.MetricsAutoUpdate.constructor | SyncMetricsKeys.glyphsReporter/Contents/Resources/plugin.py:36-41 | No snapshot, an empty negative cache that is not built, and no recompute calls. |
| SyncReporter.MetricsAutoUpdate.SyncGlyphMetrics | SyncMetricsKeys.glyphsReporter/Contents/Resources/plugin.py:67-74 | One recompute request for the glyph if its layer lookup succeeds. A failed lookup is swallowed. |
| SyncReporter.MetricsAutoUpdate.FindGlyphsWithMetricsKey | SyncMetricsKeys.glyphsReporter/Contents/Resources/plugin.py:79-121 | The result is the scan of the font. It never holds the key glyph or a glyph cached as keyless. |
| SyncReporter.MetricsAutoUpdate.UpdateMetrics | SyncMetricsKeys.glyphsReporter/Contents/Resources/plugin.py:52-63 | One request per glyph found, per appearance, in the order found. |
| SyncReporter.MetricsAutoUpdate.CacheAllGlyphKeys | SyncMetricsKeys.glyphsReporter/Contents/Resources/plugin.py:134-143 | The keyless glyphs' names are appended in font order, and the cache is marked as built. Built from empty, the cache holds exactly the names of the keyless glyphs, and no name twice when glyph names are unique. |
| SyncReporter.MetricsAutoUpdate.CacheGlyphKeys | SyncMetricsKeys.glyphsReporter/Contents/Resources/plugin.py:149-156 | A glyph with keys is removed and a keyless glyph is appended unless already present. On a cache without repeats, the result has none either, names the glyph exactly when it has no keys, and leaves every other name as it was. |
| SyncReporter.MetricsAutoUpdate.TrackBearings | SyncMetricsKeys.glyphsReporter/Contents/Resources/plugin.py:176-207 | On a drawing layer, the last glyph, the bearing snapshots, the update flag and the local re-syncs are exactly those the reporter's reaction decides. |
| SyncReporter.MetricsAutoUpdate.Foreground | SyncMetricsKeys.glyphsReporter/Contents/Resources/plugin.py:160-210 | The negative cache is built on the first tick and refreshed for the glyph afterwards, before the layer check; it never holds a name twice, and after a refresh it names the glyph exactly when the glyph has no keys. A background layer leaves the snapshot and the log alone. A drawing layer takes the snapshot the reaction decides and logs its local re-syncs. On an update it requests the dependents the scan finds. |

## Left out

- Host and UI plumbing is not modelled: `settings`, the menu and preference parts of `start`, `toggleMenu`, and `addSyncCallback`/`removeSyncCallback`. They carry no behaviour of the engine.
- `log`/`logToConsole` are not modelled; they are observability only.
- The body of the host's `layer.syncMetrics()` is not modelled. Each call is recorded as the glyph's name in `syncLog`.
- Layer bearings are fixed for the duration of one tick. The host recompute can change bearings mid-tick; that side effect is not modelled.
- The lookup `glyph.layers[Glyphs.font.selectedFontMaster.id]` is the parameter `available`. A failing lookup and the swallowed exception both mean a name outside that set.
- `layer.className() != "GSLayer"` is the boolean `isGSLayer` of the layer.
- Glyph identity is the glyph name. This stands in for Python's comparisons of glyph objects (`glyph in list`, `link == glyph`) and `glyph.name is key.name` (reporter line 86). The identity test `is` is approximated by string equality.
- Bearings are host floats that the code only compares for equality. They are `Option<int>`.
- The regular-expression engine in general is not modelled. The model covers only the two concrete patterns: as a scanner, and as a substring predicate.
- Case-insensitive matching covers ASCII letters only. Unicode case folding of non-ASCII letters is not modelled.
- The reporter's `try`/`except` around the scan is not modelled. The scan over a sequence cannot raise.
- SyncPlugin.PurgeList: for a list that holds the glyph more than once, the contract states only that other glyphs keep their membership. It does not say which copies survive the remove-while-iterating loop. The cache never holds such lists, since the no-duplicate invariant rules them out.
- A glyph renamed between ticks keeps its place in the source's object lists, because the object stays the same. The model then keeps the old name listed, next to the new one, in the plugin's cache and in the reporter's negative cache. In the plugin, a later update of a referenced glyph requests both names instead of the one glyph. In the reporter, a later keyed glyph that takes the old name is skipped by the scan. Within one tick, or in a font whose names do not change, the name and the object agree.
- SyncReporter.MetricsAutoUpdate.Foreground: requires the font's glyph names to be unique, as Glyphs keeps them. The model identifies a glyph by its name where the source compares glyph objects. With repeated names the cache could list a name twice, which the source's object list would not.
- SyncPlugin.RefreshAllMember: stated for fonts whose glyph names are unique, as in Glyphs. For a font with repeated names, only the frame and no-duplicate lemmas apply.
