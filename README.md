# RubyScape and SimpleOverlay in Dafny

RubyScape is a small Ruby API for editing Inkscape SVG drawings. It looks up
elements (layers by their `inkscape:label`, other objects by `id`), shows and
hides them, and rewrites `property:value;` pairs inside an attribute such as
`style`. SimpleOverlay builds on it to produce slide overlays. A script
shows, hides and swaps layers and takes numbered snapshots. Each emitted
snapshot saves the drawing as SVG and, by default, converts it to EPS with
Inkscape and deletes the SVG; `wait_until` makes earlier snapshots count
without being emitted. A separate call writes LaTeX fragments with one slide per snapshot
index counted since the previous fragment, skipped ones included.

The model has four modules:

- `Wrappers` (wrappers.dfy): `Option`, standing for Ruby's `nil`.
- `StyleMerge` (style_merge.dfy): the pure string logic of
  `set_attribute_property`. This covers `setting`, the `include?` guard, the
  `;` separator and the greedy `gsub(/property\:.*(\;|$)/, ...)`, written out
  over character sequences.
  - `Merge` computes the new attribute value.
  - `Stem` is the text a merge keeps in front of the new setting.
  - `DeclaredValue` reads a property back from a declaration.
- `Scape` (scape.dfy): the document and its elements.
  - An `Element` is a class whose attribute map is updated in place.
  - `RubyScape` holds the elements in document order (`doc`).
  - Lookups are first-match in document order over the value view `View()`, a `seq<Node>`.
  - The mutating operations are methods proved against value-level functions: `SetAttributeIn` and `SetAttributePropertyIn`.
- `Overlay` (overlay.dfy): the `SimpleOverlay` session.
  - It is a class holding the counters, the `last` register and the options.
  - It records an ordered trace of effects: `Save`, `Shell`, `Delete`, `WriteTex`.
  - Two ghost fields keep the emitted snapshot indices and the index ranges of the fragments written.
  - `Valid()` keeps these invariants:
    - `1 <= latexCount <= count`
    - the fragment ranges tile `1 .. latexCount - 1` contiguously
    - `latexFileCount` is one more than the number of fragments
    - emitted indices are strictly increasing and below `count`
    - the `Save` effects in the trace save exactly `baseName` + index + `.svg` for the emitted indices, in order

Ruby's `SimpleOverlay < RubyScape` inheritance is modelled by composition:
a session holds its `RubyScape` in the field `scape`.

The greedy regex at rubyscape.rb:130 replaces everything from the first `b:`
to the end of the line. So setting `b` to `9` in `"a:1;b:2;c:3;"` gives
`"a:1;b:9;"`, and the pairs after `b` are dropped
(`StyleMerge.MergeExampleGreedy`).

## Model

| member | source | states |
|---|---|---|
| StyleMerge.Setting | rubyscape.rb:163-165 | Definition: `property + ":" + value + ";"`. See `StyleMerge.SettingSplits`. |
| StyleMerge.Contains | rubyscape.rb:129 | Definition of `include?`: the pattern occurs at some position. See `StyleMerge.IndexOf`. |
| StyleMerge.ReplaceToLineEnd | rubyscape.rb:130 | Definition of the `gsub`: each `pat` is replaced with everything up to the end of its line. See `StyleMerge.ReplaceFinalLine` and `StyleMerge.MergeReplace`. |
| StyleMerge.Merge | rubyscape.rb:128-139 | Definition of the new attribute value. See `StyleMerge.MergeAbsent`, `StyleMerge.MergeAppend`, `StyleMerge.MergeReplace`, `StyleMerge.MergeMentionWithoutColon` and `StyleMerge.MergeSplit`. |
| StyleMerge.Stem | rubyscape.rb:128-139 | Definition of the text a merge keeps before the new setting. See `StyleMerge.MergeSplit`. |
| StyleMerge.DeclaredValue | rubyscape.rb:163-165 | Definition of reading a property back: the text after its first `property:` up to the next `;` or the end. See `StyleMerge.MergeDeclares`. |
| StyleMerge.IndexOf | rubyscape.rb:129-130 | It finds the first occurrence of a pattern, or nothing exactly when the pattern does not occur. |
| StyleMerge.IndexFrom | rubyscape.rb:129-130 | It finds the first occurrence at or after a start position, or nothing when none exists there. |
| StyleMerge.NextFrom | rubyscape.rb:130 | It finds the first index holding a given character at or after a position, or the end. This is where `.*` stops: at the end of the line. |
| StyleMerge.Terminated | rubyscape.rb:132-135 | It keeps the value as a prefix and ends with `;`. It adds a character exactly when the value did not already end in `;`. |
| StyleMerge.SettingSplits | rubyscape.rb:163-165 | For a property without `:`, the setting's first `:` sits right after the property. The text before it is the property; the text after it is the value and `;`. |
| StyleMerge.MergeAbsent | rubyscape.rb:138-139 | An absent attribute becomes exactly `property + ":" + value + ";"`. |
| StyleMerge.MergeAppend | rubyscape.rb:131-136 | If the value does not contain the property, it is kept as a prefix and the setting is appended. A `;` goes in between only when the value does not already end in `;`. |
| StyleMerge.MergeReplace | rubyscape.rb:130 | On a single-line value containing `property:`, the result is the text before the first `property:` followed by the setting. |
| StyleMerge.MergeMentionWithoutColon | rubyscape.rb:129-130 | A value that contains the property but never `property:` is left unchanged, with nothing appended. |
| StyleMerge.ReplaceFinalLine | rubyscape.rb:130 | When the first `pat` has no newline after it, the replacement keeps the text before it and then the replacement. |
| StyleMerge.FirstOccurrenceAtJoin | rubyscape.rb:130 | For a property without `:`, when a setting follows text free of `property:`, the first `property:` is where the setting starts. |
| StyleMerge.FirstOccurrenceAfterPrefix | rubyscape.rb:130 | Cutting a text at its first `pat` and writing `pat` again there keeps that first occurrence in the same place. |
| StyleMerge.FirstOccurrenceAfterTerminated | rubyscape.rb:131-136 | For a property without `;` that the text does not mention, the first `property:` after the `;`-terminated text is the one that follows it. |
| StyleMerge.FirstOccurrenceAfterStem | rubyscape.rb:128-139 | For a property without `;` or without `:`, outside the quirk, the first `property:` of stem plus setting is where the setting starts. |
| StyleMerge.MergeSplit | rubyscape.rb:128-139 | Outside that quirk, on a single-line value, the result is the stem followed by the setting. The stem does not depend on the value and holds no `property:`. |
| StyleMerge.MergeAtJoin | rubyscape.rb:130 | A declaration ending in a setting for the property with a single-line first value, and with no earlier `property:`, has that setting replaced by the new one. |
| StyleMerge.DeclaredAtJoin | rubyscape.rb:163-165 | When the setting's `property:` is the first one in the text, a setting whose value holds no `;` is read back as its value. |
| StyleMerge.MergeDeclares | rubyscape.rb:125-144 | Outside the quirk, for a property without `;` or without `:` and a value without `;`, the merged declaration reads back the new value for the property. |
| StyleMerge.MergeLastWins | rubyscape.rb:128-139 | Merging a first value and then a second gives the same string as merging the second alone. This holds for a property without `;` or without `:`, a single-line first value and single-line text. |
| StyleMerge.MergeIdempotent | rubyscape.rb:128-139 | Merging the same setting twice gives the same string as merging it once. |
| StyleMerge.MergeExampleGreedy | rubyscape.rb:130 | Setting `b` to `9` in `"a:1;b:2;c:3;"` gives `"a:1;b:9;"`: the pairs after `b` are dropped. |
| StyleMerge.MergeExampleSeparator | rubyscape.rb:131-136 | Setting `display` to `none` in `"a:1"` and in `"a:1;"` both give `"a:1;display:none;"`. |
| StyleMerge.MergeExampleMention | rubyscape.rb:129-130 | Setting `display` in `"fill:display"` leaves it unchanged. |
| Scape.Matches | rubyscape.rb:44-72 | Definition of the four selectors: any element, `path` or `text` by `id`, and top-level `svg/g` by `inkscape:label`. See `Scape.Find`. |
| Scape.Attribute | rubyscape.rb:45 | Definition of `o[name]`: the attribute's value, or nil when the element has none. It is also the read at rubyscape.rb:128. See `Scape.Find` and `Scape.SetAttributePropertyIn`. |
| Scape.SetAttributeAt | rubyscape.rb:152 | Definition of `o[attribute] = value` on one node, also the writes at rubyscape.rb:130, 136 and 139. See `Scape.SetAttributeIn` and `Scape.SetAttributePropertyIn`. |
| Scape.FindFrom | rubyscape.rb:57-73 | Given that nothing before the start matches, it finds the first match in document order, or nothing exactly when no node matches. |
| Scape.Find | rubyscape.rb:57-73 | `search(...).first` returns the first matching node in document order, or nothing exactly when no node matches. |
| Scape.FindAgrees | rubyscape.rb:57-73 | Two documents on which a selector matches at the same positions give the same answer. |
| Scape.RestyleKeepsLookups | rubyscape.rb:42-73 | No selector reads `style`, so a document changed only in its styles answers every lookup as before. |
| Scape.NarrowedLookupAgrees | rubyscape.rb:57-73 | When the first element with an id is a path (or a text), the path (or text) lookup finds that same element. When it is not a path, the path lookup does not find it. |
| Scape.SetAttributeIn | rubyscape.rb:149-156 | On a miss the document is unchanged. On a hit only the first element with the id changes, and only that one attribute is replaced by the value. |
| Scape.SetAttributePropertyIn | rubyscape.rb:125-144 | On a miss the document is unchanged. On a hit only the first element with the id changes, and its attribute becomes the merge of its old value. |
| Scape.SetAttributePropertyLastWins | rubyscape.rb:125-144 | Two calls for the same property on the same id leave the document as the second call alone does (show then hide is hide). The attribute is not `id` and holds no newline in the first element with the id, the property lacks `;` or `:`, and the first value has no newline. |
| Scape.RestyledOnlyTransitive | rubyscape.rb:81-91 | Two restylings compose into a restyling. |
| Scape.Element.constructor | rubyscape.rb:25 | An element has the tag, group flag and attributes it was parsed with. |
| Scape.RubyScape.constructor | rubyscape.rb:23-26 | The document holds the parsed elements in document order, each once. |
| Scape.RubyScape.View | rubyscape.rb:15 | The value view has one node per element, in order, each showing that element's current attributes. |
| Scape.RubyScape.Lookup | rubyscape.rb:57-73 | The element found first by a selector, or nil exactly when no element matches. |
| Scape.RubyScape.GetLayer | rubyscape.rb:42-51 | The loop returns the first top-level `svg/g` whose `inkscape:label` equals the argument, or nil when there is none. |
| Scape.RubyScape.GetObject | rubyscape.rb:57-59 | It returns the first element in document order with this id, or nil exactly when no element has it. |
| Scape.RubyScape.GetPath | rubyscape.rb:64-66 | It returns the first `path` element with this id, or nil exactly when there is none. |
| Scape.RubyScape.GetText | rubyscape.rb:71-73 | It returns the first `text` element with this id, or nil exactly when there is none. |
| Scape.RubyScape.ShowLayer | rubyscape.rb:81-83 | The layer's whole `style` becomes exactly `display:inline;` and its other attributes are untouched. Nothing but styles changes in the document. |
| Scape.RubyScape.HideLayer | rubyscape.rb:89-91 | The layer's whole `style` becomes exactly `display:none;` and its other attributes are untouched. Nothing but styles changes in the document. |
| Scape.RubyScape.SetAttributeProperty | rubyscape.rb:125-144 | The new document is `SetAttributePropertyIn` of the old one. |
| Scape.RubyScape.SetAttribute | rubyscape.rb:149-156 | The new document is `SetAttributeIn` of the old one. |
| Scape.RubyScape.Show | rubyscape.rb:97-99 | It merges `display:inline` into the `style` of the element with this id. |
| Scape.RubyScape.Hide | rubyscape.rb:105-107 | It merges `display:none` into the `style` of the element with this id. |
| Scape.RubyScape.SetStyleProp | rubyscape.rb:114-116 | It merges `property:value` into the `style` of the element with this id. |
| Overlay.DecimalString | simpleoverlay.rb:85 | The interpolated index is a non-empty string of decimal digits. |
| Overlay.DecimalRoundTrip | simpleoverlay.rb:85 | Reading the decimal string back gives the index. |
| Overlay.ArtifactName | simpleoverlay.rb:85 | Definition: the base name followed by the decimal index. See `Overlay.ArtifactNamesDiffer`. |
| Overlay.ArtifactNamesDiffer | simpleoverlay.rb:85-86 | Different indices give different artifact names. |
| Overlay.ExtendIncreasing | simpleoverlay.rb:85-86 | Appending an index above all earlier ones keeps the emitted indices strictly increasing. |
| Overlay.EmittedNamesUnique | simpleoverlay.rb:85-86 | Strictly increasing emitted indices never share an artifact name. |
| Overlay.ConvertCommand | simpleoverlay.rb:93 | Definition of the Inkscape command line for `name`. See `Overlay.SnapshotSteps`. |
| Overlay.SnapshotEffects | simpleoverlay.rb:88-99 | Definition of an emission's effects. See `Overlay.SnapshotSteps` and `Overlay.SavedPathsOfSnapshot`. |
| Overlay.Skips | simpleoverlay.rb:76 | Definition of the deferred-start test `@wait != -1 && @count < @wait`. See `Overlay.SimpleOverlay.Snapshot`. |
| Overlay.SnapshotSteps | simpleoverlay.rb:88-99 | An emission saves `name.svg`, then runs the Inkscape conversion only if `eps`, then deletes `name.svg` only if `cleanup`. |
| Overlay.SavedPathsAppend | simpleoverlay.rb:88-99 | The files saved by two traces in a row are those of the first, then those of the second. |
| Overlay.SavedPathsOfSnapshot | simpleoverlay.rb:88-99 | An emission saves exactly one file, `name.svg`. |
| Overlay.TraceAfterSnapshot | simpleoverlay.rb:85-99 | If the saved files so far are those of the emitted indices, an emission for a new index extends them by that index's svg. |
| Overlay.TraceAfterTex | simpleoverlay.rb:112-124 | Writing a fragment file saves no svg. |
| Overlay.SvgPathsDiffer | simpleoverlay.rb:88 | Different names give different `.svg` paths. |
| Overlay.SavedFilesUnique | simpleoverlay.rb:85-88 | No two files a valid session saves share a path. |
| Overlay.TexName | simpleoverlay.rb:112 | Definition: base name, fragment number and `.tex`. See `Overlay.SimpleOverlay.Latex`. |
| Overlay.Block | simpleoverlay.rb:116-119 | Definition of one slide including artifact `i` under `basedir`. See `Overlay.Blocks`. |
| Overlay.Blocks | simpleoverlay.rb:115-120 | It yields exactly `hi - lo` slides (none when `hi <= lo`), the k-th including artifact `lo + k`, in ascending order. |
| Overlay.FragmentBlocks | simpleoverlay.rb:115-120 | The loop builds exactly `Blocks` for the indices `lo .. hi - 1`. |
| Overlay.ChainDisjoint | simpleoverlay.rb:115-124 | The ranges of successive fragments are disjoint: a later one starts at or after the end of an earlier one. |
| Overlay.ChainCovers | simpleoverlay.rb:115-124 | Every index below the low-water mark lies in some fragment's range. |
| Overlay.SimpleOverlay.constructor | simpleoverlay.rb:24-35 | A new session starts with `count`, `latex_count` and `latex_file_count` at 1, `wait` at -1, `eps` and `cleanup` on, the default Inkscape path, no last layer and no effects. |
| Overlay.SimpleOverlay.WaitUntil | simpleoverlay.rb:43-45 | It sets `wait` to the index and keeps the session valid. |
| Overlay.SimpleOverlay.ShowL | simpleoverlay.rb:50-53 | `last` becomes the looked-up layer and its `style` becomes `display:inline;`. No other element changes; only styles change. |
| Overlay.SimpleOverlay.HideL | simpleoverlay.rb:58-60 | The looked-up layer's `style` becomes `display:none;`. No other element changes and `last` is left alone. |
| Overlay.SimpleOverlay.SwapL | simpleoverlay.rb:65-68 | The old `last` is hidden (unless it is the new layer). The new layer is shown and stored in `last`. Nothing else changes. |
| Overlay.SimpleOverlay.Snapshot | simpleoverlay.rb:75-100 | `count` always grows by 1. A skipped call (`wait != -1 && count < wait`) has no effect. An emitted one records the save for the pre-increment index, then the convert only if `eps` and the delete only if `cleanup`, and adds that index to the emitted ones. |
| Overlay.SimpleOverlay.Emit | simpleoverlay.rb:85-99 | An emission appends the snapshot effects for index `count`, adds that index to the emitted ones and keeps the trace matching them. |
| Overlay.SimpleOverlay.AppendTex | simpleoverlay.rb:112-124 | Recording a fragment file appends it to the trace and keeps the trace matching the emitted indices. |
| Overlay.SimpleOverlay.CloseFragment | simpleoverlay.rb:122-123 | `latex_count` becomes `count`, `latex_file_count` grows by 1, and the new range continues the chain. |
| Overlay.SimpleOverlay.Latex | simpleoverlay.rb:109-126 | It writes file `latex_file_count` with one slide per index from `latex_count` to `count - 1`. Then `latex_count == count` and `latex_file_count` has grown by 1. The new range continues the chain. |
| Overlay.DeferredStartScenario | simpleoverlay.rb:76-79 | After `wait_until(3)`, three snapshots leave `count` at 4 and emit only index 3. |
| Overlay.ThreeSnapshots | simpleoverlay.rb:75-100 | Three snapshots from a fresh session emit indices 1, 2 and 3, with nine effects in all. |
| Overlay.FragmentScenario | simpleoverlay.rb:109-126 | After three snapshots, the first fragment lists slides 1, 2 and 3. A second fragment right after it lists nothing. |

## Left out

- Parsing and serialising with Hpricot (rubyscape.rb:25, 33) belong to a foreign library. The document arrives as its element sequence, and `Save` records the document's value instead of its text.
- `save` (rubyscape.rb:31-35), `File.delete`, the `.tex` file writes and the Inkscape `system` call are I/O. They appear only as effects in the trace, and the shell's exit status is not modelled.
- `File.basename(@file.path, ".svg")` is filesystem path handling; the base name is a constructor parameter.
- The console messages (`puts` in getLayer, set_attribute_property, set_attribute and snapshot) and the `quiet` option produce only console output.
- The `script()` hook called from `initialize` is left for subclasses; the model's callers drive the session's methods directly.
- Merge reads the property literally in the regex. A property with regex metacharacters, or a value with backslashes that `gsub` would read as back-references, is not modelled.
- StyleMerge.MergeLastWins: requires a property without `;` or without `:`, a single-line first value and single-line text. An earlier `property:` can straddle the join between the stem's final `;` and the new setting only when the property holds both `:` and `;`. A newline ends the greedy match early. `Merge` itself handles multi-line values, one replacement per line.
- StyleMerge.MergeIdempotent: requires a property without `;` or without `:` and single-line text, for the same reasons.
- StyleMerge.MergeSplit: requires a single-line value outside the quirk case, because a newline ends the greedy match early.
- StyleMerge.MergeDeclares: requires a single-line value outside the quirk case, a property without `;` or without `:`, and a value without `;`. A `;` in the value would end the read-back early.
- Scape.SetAttributePropertyLastWins: requires a single-line attribute value on the first element with the id, a property without `;` or without `:`, a single-line first value and an attribute other than `id`, as MergeLastWins does.
- Overlay.SimpleOverlay.ShowL: requires the layer to exist, since Ruby's `showLayer(nil)` raises and that failure is not modelled.
- Overlay.SimpleOverlay.HideL: requires the layer to exist, since `hideLayer(nil)` raises.
- Overlay.SimpleOverlay.SwapL: requires `last` and the layer to exist, since `hideLayer(nil)` and `showLayer(nil)` raise.
- `eps` and `cleanup` are booleans; Ruby's truthiness of the integer `1` (and of `0`) is not modelled.
- Ids are compared as plain strings. Hpricot's selector syntax, which would break on an id containing `'`, is not modelled.
- The `respond_to?(:[])` test in set_attribute_property and set_attribute (rubyscape.rb:127, 151) always holds for an element, so it is not modelled.
- Ruby's `attr_accessor` setters are plain field assignments. They are not separate operations.
