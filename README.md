# TMX document model

A Dafny model of the `TMX` class of the iLib TMX library (`src/tmx.js`).
The class holds a translation memory in TMX 1.4b form:

- header settings: version, properties, source locale, segment type, data
  type, creation tool and creation tool version;
- the list of translation units, in the order they were added;
- an index of those units by their identity key (the unit library's
  `hashKey`).

The model covers these operations:

- construction from options;
- `addProperty`;
- `addTranslationUnit` and `addTranslationUnits`, where a unit whose key
  is already indexed has its variants merged into the indexed unit;
- `segmentString`;
- `addResource` for string, array and plural resources. This includes
  the folding of target plural categories the source lacks into the
  units of the source's `other` category;
- `size`;
- `serialize`, `serializeTranslationUnit` and
  `serializeTranslationVariant`, up to the compact element tree handed to
  the XML writer;
- `parse` and `deserialize` from that compact tree, including the
  version check.

## How the model is built

**Modules**

| file | module | contents |
|---|---|---|
| `wrappers.dfy` | `Wrappers` | `Option` and JavaScript truthiness of an optional string |
| `units.dfy` | `Units` | translation variants and units as values; property bags as insertion-ordered key/value lists (`Get`, `Put`); the unit library's `addVariant`, `addVariants` and `addProperties` |
| `xmltree.dfy` | `XmlTree` | the compact element tree and `makeArray` |
| `helpers.dfy` | `Helpers` | `versionString`, the segmentation option, `String.prototype.trim`, `segmentString` |
| `store.dfy` | `Store` | the unit list and index as a value (`Body`), and the merge-in step `Insert` with its properties |
| `ingest.dfy`, `ingest_lemmas.dfy` | `Ingest`, `IngestLemmas` | `addResource` as a function on `Body`, and its properties |
| `codec.dfy` | `Codec` | serialize to and parse from the compact tree, and the round trips |
| `tmx.dfy` | `Tmx` | the `Tmx` class: fields updated in place by methods, each proved equal to the value-level function it implements |

**Index entries.** In the source, the index and the list share unit
objects, so merging into an indexed unit changes the unit in the list.
The model keeps units as values and records, per key, where the indexed
unit sits in the list (`Live(i)`). `deserialize` replaces the list but
keeps the index. From then on the indexed objects are no longer in the
list, so those entries become `Detached`, and merging into them changes
nothing visible.

**Resource kinds.** Plural categories are key-ordered lists. The `other`
list of the plural branch holds, per source `other` segment, the list
position of the freshly appended unit. It holds no position when that
unit was merged into an existing one, because the source then pushes an
object that is not in the document.

**Serialized form.** The serialized form is the compact tree that `xml-js`
produces and consumes:

- an element has its attributes, an optional text and its named
  children;
- a name that occurs once holds one element, and a name that occurs
  several times holds a list of them.

**Where the description and the code disagree, the model follows the
code:**

- `deserialize` passes the option `nativeTypeAttribute`, which `xml-js`
  does not know. The version attribute therefore stays the text "1.4",
  and a `<tmx>` element without attributes makes the gate at
  `src/tmx.js:586-589` throw while building its log message.
- `parse` reads the `name` attribute of a unit's `<prop>`, but
  `serializeTranslationUnit` writes `type`. Written unit properties
  therefore come back under the key `"undefined"`, and only the last
  value survives.
- `parse` tests `unit._attributes & unit._attributes.srclang`, a bitwise
  and, which is always 0. The `srclang` of a `<tu>` is never read, and a
  `<tu>` without attributes throws.
- `parse` reads neither the header properties nor the version.
- After `deserialize`, the units it parsed are not in the index.

## Model

| member | source | states |
|---|---|---|
| Helpers.VersionString | src/tmx.js:32-37 | the integral part is kept up to the first '.', exactly one '.' follows, and a non-empty fraction follows it; a number without '.' gets ".0" |
| Helpers.VersionStringKeepsFraction | src/tmx.js:32-37 | a number written with a non-empty fraction is rendered unchanged |
| Helpers.VersionStringExamples | src/tmx.js:32-37 | 1.4 renders as "1.4" and 2 as "2.0" |
| XmlTree.MakeArray | src/tmx.js:44-46 | a list stays as it is, a single element becomes a list of one |
| Codec.SerializeUnit | src/tmx.js:75-79 | a unit is written out exactly when it has at least two variants |
| Codec.UnitElementShape | src/tmx.js:56-99 | a written unit has `srclang` from its source locale, one `<prop>` per property with the key as `type` and the value as text, and one `<tuv>` per variant in stored order with the locale as `xml:lang` and the text as `<seg>` text |
| Codec.Kept | src/tmx.js:475-480 | the kept units are exactly those with more than one variant |
| Codec.KeptAppend | src/tmx.js:475-480 | the units kept from a concatenation are those kept from each part, in order |
| Codec.KeptOne | src/tmx.js:475-480 | a single unit is kept iff it has more than one variant |
| Codec.KeptAll | src/tmx.js:475-480 | every unit is written out iff every unit has more than one variant |
| Codec.HeaderProps | src/tmx.js:459-471 | header properties are every property except `creationtool` and `creationtoolversion` |
| Codec.HeaderPropsAppend | src/tmx.js:459-471 | the header properties of a concatenation are those of each part, in order |
| Codec.HeaderPropsOne | src/tmx.js:459-471 | a single property is written to the header iff it is not one of the two tool settings |
| Codec.SerializeBody | src/tmx.js:475-482 | the body lists exactly the units with more than one variant, in document order, each as its serialized `<tu>` |
| Codec.SerializeHeader | src/tmx.js:435-457 | the root carries `versionString(version)`; the header carries segtype, the creation tool (setting, else property, else "loctool"), the tool version (setting, else property, else the package version), adminlang "en-US", srclang and datatype; `o-tmf` is present iff `originalFormat` is set, with that value |
| Codec.SerializeHeaderProps | src/tmx.js:459-471 | the header has `<prop>` elements iff some property other than the tool settings exists, one per such property in key order, with the key as `type` and the value as text |
| Codec.LateAttrsLookup | src/tmx.js:445-457 | adminlang, srclang and datatype are always written; `o-tmf` only when `originalFormat` is truthy |
| Codec.HeaderAttrsFixed | src/tmx.js:441-444 | segtype, creationtool and creationtoolversion are read from the header attributes as written |
| Codec.VersionGate | src/tmx.js:585-591 | a document is accepted iff it has one `<tmx>` element whose version attribute is exactly "1.4" |
| Codec.ReadHeader | src/tmx.js:500-511 | parse leaves the header properties and version as they were |
| Codec.ReadHeaderFrom | src/tmx.js:500-511 | the attributes of a `<header>` element never touch the header properties or the version |
| Codec.HeaderRoundTrip | src/tmx.js:500-511 | reading back a written header sets the tool, the tool version when known, and the segment type, data type and source locale when non-empty; nothing else changes |
| Codec.SerializeGate | src/tmx.js:586-591 | a serialized document passes the version check iff its version renders as "1.4" |
| Codec.PropEntriesLast | src/tmx.js:521-531 | each property key holds the text of the last `<prop>` stored under it |
| Codec.PropEntriesAbsent | src/tmx.js:521-531 | a key that no `<prop>` names is absent |
| Codec.PropWithoutName | src/tmx.js:525-526 | a `<prop>` with `type` but no `name` is stored under "undefined" |
| Codec.PropEntriesRoundTrip | src/tmx.js:521-531 | written unit properties read back as at most one entry, "undefined", holding the last value |
| Codec.PropsRoundTrip | src/tmx.js:521-531 | after addProperties, a written non-empty property bag reads back as `PropsAfterRoundTrip` |
| Codec.VariantLocale | src/tmx.js:539-548 | `lang` is preferred when non-empty; otherwise the locale is truthy iff `xml:lang` is; the locale is always one of the two |
| Codec.ReadVariant | src/tmx.js:549-557 | a `<tuv>` contributes a variant iff its locale and its `<seg>` text are both non-empty |
| Codec.ReadVariantsAdds | src/tmx.js:536-563 | reading a unit's `<tuv>`s merges the kept variants in with addVariants and changes no property, comment or data type |
| Codec.ReadVariantsSource | src/tmx.js:558-561 | the unit's source is the text of the last kept variant in the document locale, and its source locale is that locale |
| Codec.ReadVariantsNoSource | src/tmx.js:558-561 | without a kept variant in the document locale, source and source locale stay as they were |
| Codec.UnitSourceLocale | src/tmx.js:516-563 | a parsed unit's source locale is unset or the document locale; it has a source iff it holds a variant in the document locale |
| Codec.VariantRoundTrip | src/tmx.js:536-557 | a written `<tuv>` reads back as its variant iff locale and text are non-empty |
| Codec.KeptVariantsRoundTrip | src/tmx.js:536-563 | written `<tuv>`s of complete variants read back as those variants, in order |
| Codec.UnitElementKids | src/tmx.js:80-99 | a written `<tu>` has `<prop>`s iff the unit has properties, never a `<note>`, and its `<tuv>`s |
| Codec.UnitElementStart | src/tmx.js:516-535 | parse starts a written unit from its properties after the round trip, with no note and no variants, and reads the `<tuv>`s written for its variants |
| Codec.UnitSourceRoundTrip | src/tmx.js:558-561 | a written unit's source comes back as its last variant in the document locale, or not at all when it has none |
| Codec.UnitRoundTrip | src/tmx.js:516-563 | a written unit has no attributes iff it has no source locale; otherwise parse gives back its variants, the collapsed properties, no comment or data type, and as source the last variant in the document locale (else no source) |
| Codec.BodyRoundTrip | src/tmx.js:512-566 | parse sees one `<tu>` per written unit; all have attributes iff every written unit has a source locale; when all are readable, one unit per written unit comes back, in order, with its variants |
| Codec.CollectProps | src/tmx.js:521-531 | the property loop builds `PropEntries` |
| Codec.CollectVariants | src/tmx.js:536-563 | the `<tuv>` loop yields `ReadVariants` |
| Codec.ReadUnit | src/tmx.js:516-563 | reading one `<tu>` yields `UnitOf` |
| Codec.FirstBare | src/tmx.js:515-518 | the first `<tu>` without attributes, where parse throws; every earlier one has attributes |
| Codec.ParsedUnits | src/tmx.js:512-566 | parse pushes one unit per `<tu>` before the first one without attributes |
| Codec.ReadAll | src/tmx.js:515-566 | the i-th unit read is `UnitOf` of the i-th element |
| Units.Get | src/tmx.js:224-226 | a value read with `obj[k]` is one stored under `k` |
| Units.GetKeys | src/tmx.js:224-226 | reading `obj[k]` gives a value iff `k` is a key |
| Units.Put | src/tmx.js:193-195 | writing `obj[k] = v` stores `v` under `k`, leaves other keys alone, keeps an existing key's position and appends a new key |
| Units.AddVariant | src/tmx.js:298-306 | the variant is held afterwards; existing variants keep their order; the list grows by one iff the variant was not held |
| Units.AddVariants | src/tmx.js:227 | the result holds exactly the old and the new variants, the old ones first in their order; a duplicate-free list stays duplicate-free |
| Units.AddVariantsIdempotent | src/tmx.js:227 | merging the same variants twice is merging them once |
| Units.AddVariantsNoop | src/tmx.js:227 | merging variants that are all held changes nothing |
| Units.AddProperties | src/tmx.js:308-312 | only truthy values are written |
| Units.AddPropertiesUnset | src/tmx.js:308-312 | unset or empty values leave the bag unchanged |
| Units.AddPropertiesKeep | src/tmx.js:308-312 | a key that no truthy entry names keeps its old value, or stays absent |
| Units.AddPropertiesLast | src/tmx.js:308-312 | a key reads the value of the last truthy entry written under it |
| Units.AddVariantsFresh | src/tmx.js:227 | merging in distinct variants that are not yet held appends them, in the order given |
| Helpers.SegmentationOption | src/tmx.js:148-150 | the segment type is "sentence" iff that is requested, else "paragraph" |
| Helpers.Trim | src/tmx.js:266 | the result is the slice of the input between its leading and trailing white space |
| Helpers.SegmentString | src/tmx.js:257-268 | nothing for an absent or empty string; the whole string in paragraph mode; otherwise piece i is the trimmed i-th splitter piece, one per splitter piece |
| Tmx.Initial | src/tmx.js:135-156 | defaults without options; with options, the version and properties are the options' when given (else "1.4" and none), the source locale is the option when truthy (else "en-US"), the segment type is the requested one when it is "sentence" (else "paragraph"), the creation tool and its version are the options' when truthy (else unset), and the data type is "unknown" |
| Tmx.Tmx.constructor | src/tmx.js:135-161 | the header is `Initial(options)`, with no units and an empty index |
| Tmx.Tmx.AddProperty | src/tmx.js:193-195 | the property holds the value afterwards; nothing else changes |
| Store.Insert | src/tmx.js:219-233 | a unit with an unindexed key is appended and indexed at its position; every index entry stays valid; nothing is removed, no head changes and variants are only added |
| Store.InsertExisting | src/tmx.js:224-227 | a unit with an indexed key leaves list length and index alone; it merges its variants into the indexed unit only, or changes nothing if that unit left the list |
| Store.InsertCoveredNoop | src/tmx.js:224-227 | merging in a unit whose variants are already held under its key changes nothing |
| Store.IndexedKeysDistinct | src/tmx.js:219-233 | in an indexed list no two units share a key, so the list holds no duplicates |
| Store.InsertAll | src/tmx.js:241-245 | adding units in order keeps the index valid and grows the list by at most their number |
| Store.InsertAllIdempotent | src/tmx.js:241-245 | adding the same units a second time changes nothing |
| Store.Detach | src/tmx.js:592 | replacing the list keeps every index key, and none reaches a unit in the list |
| Store.DetachedIndexed | src/tmx.js:592 | after the list is replaced, list and index agree only if the list is empty |
| Store.AppendUnindexed | src/tmx.js:565 | pushing units without indexing them leaves every index entry valid |
| Tmx.Tmx.AddTranslationUnit | src/tmx.js:219-233 | the new contents are `Insert`: a new key appends the unit and grows the size by one; a known key keeps size and index |
| Tmx.Tmx.AddTranslationUnits | src/tmx.js:241-245 | the new contents are `InsertAll` of the units, in order |
| Tmx.Tmx.Size | src/tmx.js:423-425 | the number of units held |
| Ingest.UnitPropsGet | src/tmx.js:308-312 | each unit's x-context, x-flavor and x-project hold the resource's value when it is truthy and are absent otherwise |
| Ingest.NewUnit | src/tmx.js:293-312 | a fresh unit has the resource's locale, segment, data type and context properties, the source variant first, and the target variant second when given |
| Ingest.StringTarget | src/tmx.js:302 | a target variant is added only when targets apply, the target is set and its segment is non-empty |
| Ingest.StringItems | src/tmx.js:289-314 | one unit per source segment, in order |
| Ingest.ElementItems | src/tmx.js:324-347 | one unit per segment of an element, with the resource's locale, segment, data type and properties; without a target element, or past its end, the unit holds only its source; otherwise its variants are the source and then the j-th target segment |
| Ingest.SegmentAll | src/tmx.js:318-323 | each element segmented on its own |
| Ingest.SegmentPlurals | src/tmx.js:355-360 | same categories in the same order, each value segmented |
| Ingest.CategoryItems | src/tmx.js:363-394 | one unit per segment of a source category, with the resource's locale, segment, data type and properties, marked as `other` iff the category is "other"; without the same target category the unit holds only its source; otherwise its variants are the source and then target segment i, which is unset past the end of the target category |
| Ingest.ExtraSegments | src/tmx.js:401-412 | every segment list comes from a target category the source lacks, and every such category contributes its segments |
| Ingest.ExtraSegmentsAppend | src/tmx.js:401-412 | the extra categories of consecutive runs of target categories are those of each run, in order |
| Ingest.ExtraSegmentsOne | src/tmx.js:402-403 | a single target category is extra iff the source lacks it |
| Ingest.PluralGroups | src/tmx.js:362-395 | one group of units per source category, in key order |
| Ingest.PluralOtherCount | src/tmx.js:385-387 | the `other` list has one entry per segment of the source `other` category |
| Ingest.Feed | src/tmx.js:362-395 | units go through the merge-in step in order; the index stays valid and one list position is recorded per `other` unit |
| Ingest.FeedGrows | src/tmx.js:362-395 | feeding units in only adds units and variants, and a list that agrees with its index keeps agreeing with it |
| Ingest.AttachAt | src/tmx.js:405-408 | a unit merged away gets nothing; otherwise only that unit changes, its head stays and it gets the variant through addVariant; index and list length are unchanged |
| Ingest.AttachCategory | src/tmx.js:404-409 | one extra category: segment i goes to `other[i]`; the index and the length are unchanged |
| Ingest.AttachCategoryStep | src/tmx.js:404-409 | segment i goes to `other[i]` when that entry exists; a segment past the end of `other` changes nothing |
| Ingest.AttachCategoryCapped | src/tmx.js:404-409 | the segments past the end of `other` change nothing |
| Ingest.AttachExtras | src/tmx.js:401-412 | all extra categories, in target key order, up to the first one longer than `other`; the index and the length are unchanged |
| Ingest.AttachExtrasStopped | src/tmx.js:401-412 | once a category has run past the end of `other`, the later ones change nothing |
| Ingest.IngestResource | src/tmx.js:281-415 | a resource that is absent or not in the document's source locale changes nothing; otherwise the index stays valid and the contents only grow, whether the call returns or throws |
| Tmx.Tmx.AddResource | src/tmx.js:281-415 | the new contents are `IngestResource` of the old ones, and it throws iff `Throws` holds: an array resource missing its target array, or a plural target category longer than the `other` list |
| Tmx.Tmx.AddStringResource | src/tmx.js:289-315 | the new contents are the string units fed through the merge-in step |
| Tmx.Tmx.AddArrayResource | src/tmx.js:317-349 | it throws iff targets apply, the target array is missing and some element has a segment, and then nothing changes; otherwise the new contents are the array units, element-major, fed through the merge-in step |
| Tmx.Tmx.AddElementUnits | src/tmx.js:325-347 | one element's units fed through the merge-in step |
| Tmx.Tmx.AddPluralResource | src/tmx.js:351-413 | the new contents are the category units fed through, then the extra target categories attached to the `other` units; it throws iff an extra category is longer than the `other` list |
| Tmx.Tmx.AddCategories | src/tmx.js:362-395 | the source categories' units fed through in key order, returning the positions of the `other` units |
| Tmx.Tmx.AddCategoryUnits | src/tmx.js:363-394 | one category's units fed through, returning where its `other` units landed |
| Tmx.Tmx.AttachExtraCategories | src/tmx.js:401-412 | the extra categories attached, in target key order; it throws iff one of them is longer than the `other` list, having attached what came before |
| Tmx.Tmx.AttachCategoryVariants | src/tmx.js:404-409 | one extra category's segments attached to the `other` units; it throws iff the category is longer than the `other` list |
| IngestLemmas.FeedCovers | src/tmx.js:219-233 | after feeding units in, each unit's variants are held under its key |
| IngestLemmas.IngestIdempotent | src/tmx.js:281-415 | adding the same resource twice is adding it once |
| IngestLemmas.ReAddKeepsCounts | src/tmx.js:281-415 | re-adding a resource keeps the unit count and every unit's variant count |
| IngestLemmas.StringAlignment | src/tmx.js:290-307 | source segment i of a string pairs with target segment i when that segment exists and is non-empty |
| IngestLemmas.ArrayAlignment | src/tmx.js:318-340 | segment j of element i pairs with segment j of target element i when both exist, even when empty |
| IngestLemmas.ArraySourceOrder | src/tmx.js:324-348 | array units come element-major, each element's segments in order |
| IngestLemmas.PluralFewerTargetCategories | test/testTMX.js:3040-3141 | a paragraph-mode, one-segment-per-category analogue of this sentence-mode test: with a target that has only `other`, the `one` unit holds only its source and the `other` unit holds source and target |
| IngestLemmas.PluralMoreTargetCategories | test/testTMX.js:3143-3258 | a paragraph-mode, one-segment-per-category analogue of this sentence-mode test: with a target that adds `few`, the `few` segment goes to the `other` unit after its target |
| IngestLemmas.JapaneseReturns | src/tmx.js:401-412 | the Japanese target of that test does not throw |
| IngestLemmas.RussianReturns | src/tmx.js:401-412 | the Russian target of that test does not throw |
| IngestLemmas.PluralWithoutOtherThrows | src/tmx.js:401-409 | a source without an `other` category and a target with extra categories throws |
| IngestLemmas.ArrayWithoutTargetThrows | src/tmx.js:321-335 | an array resource with a target locale and no target array throws iff some element has a segment |
| IngestLemmas.FeedSlots | src/tmx.js:362-395 | the `other` list has one entry per `other` unit; its positions are distinct, are new in the list and hold that unit's head and variants |
| IngestLemmas.AttachCategoryAt | src/tmx.js:404-409 | the unit at `other[i]` gets segment i of the category through addVariant when the category has one, and nothing otherwise |
| IngestLemmas.AttachCategoryElse | src/tmx.js:404-409 | a unit not in the `other` list is unchanged |
| IngestLemmas.AttachExtrasAt | src/tmx.js:401-412 | the unit at `other[i]` gets, through addVariants, segment i of each extra category up to the first one longer than `other` |
| IngestLemmas.AttachExtrasElse | src/tmx.js:401-412 | a unit not in the `other` list is unchanged by the extras |
| IngestLemmas.OtherUnitsGroups | src/tmx.js:362-387 | with distinct category names, the `other` units are exactly the units of the "other" category |
| IngestLemmas.PluralOthers | src/tmx.js:362-387 | the i-th `other` unit is the unit built for segment i of the source "other" category; there are none without that category |
| IngestLemmas.PluralFolding | src/tmx.js:351-413 | for every plural resource: the `other` list is as long as the source "other" category; unit count and index are those after the category units; the unit at `other[i]` keeps the head of the i-th `other` unit and gets segment i of each extra target category, in target order, up to the first category that throws; every other unit is as the category units left it |
| IngestLemmas.PluralExtraLostOnMerge | src/tmx.js:385-412 | when the `other` unit merges into one already held, the extra category reaches no unit |
| Tmx.Tmx.Serialize | src/tmx.js:434-482 | the tree passes the version check iff the version renders as "1.4", and its body holds the kept units |
| Tmx.DefaultHeader | src/tmx.js:434-457 | a document built without options writes version "1.4", paragraph, en-US, unknown, "loctool" and no `o-tmf` |
| Tmx.Tmx.ApplyHeader | src/tmx.js:500-511 | the header becomes `ReadHeaderFrom` of the `<header>` element; units and index are unchanged |
| Tmx.Tmx.Parse | src/tmx.js:499-569 | the parsed units are appended up to the first `<tu>` without attributes; it throws iff there is such a `<tu>`; the index is unchanged |
| Tmx.Tmx.Deserialize | src/tmx.js:578-597 | nothing changes without a `<tmx>`, on a wrong version or when the gate throws; otherwise the list is replaced by the parsed units, the index is detached and the header is read |
| Tmx.ReloadedIndex | src/tmx.js:592 | after deserialize, adding a unit whose key was indexed before changes nothing |

## Left out

- Text-level XML is not modelled. `js2xml` and `xml2js` are taken to map the compact tree to and from text faithfully. `js2xml` is taken to leave out an attribute whose value is `undefined`.
- The XML declaration line that `serialize` prepends is not modelled.
- The sentence splitter (`cldr-segmentation`) and the `Locale` language lookup are a parameter, `Splitter`, applied to the text and the locale.
- `getVersion` reads `package.json` from disk. The package version it returns is a parameter of serialize.
- The `path` option and `getPath`/`setPath` are not modelled, because no modelled behaviour depends on them.
- `getProperties`, `setProperties` and `getTranslationUnits` are plain field accesses and are not modelled separately.
- Logging is not modelled.
- `write` (file output through `makeDirs` and the file system) is not modelled.
- The document's `getVersion` (`src/tmx.js:606-608`) is not modelled. It returns the version number, or "1.4" when that number is falsy, and the model holds the version as text rather than as a number.
- `parseFloat` and the number-to-text conversion are not modelled. The version is held as the decimal text of the number. `Helpers.VersionString` therefore models `versionString` on that text.
- The order of integer-like keys in JavaScript objects is not modelled. Property bags and plural categories keep insertion order.
- The unit library's behaviour is assumed:
  - `addVariant` skips an exact duplicate (locale and text);
  - `addProperties` skips falsy values;
  - a new unit has an empty head apart from what the constructor sets;
  - `hashKey` is an uninterpreted function of the head.
- A thrown `TypeError` is modelled as a `threw` result and the state left behind; the exception itself and its message are not modelled. Two reads throw: `tarArr[i]` when targets apply but the array resource has no target array (the state is unchanged, since it happens before the first unit is added), and `other[i]` past the end of the `other` list (the units added so far stay).
- Reading target segment i past the end of a target plural category is not an error in the source: it gives `undefined`, and the variant is added with that text. The model holds such a variant with an unset text. Serializing it writes a `<seg>` element without text, which `parse` then skips.
- Tmx.Tmx.AddPluralResource: also requires that the resource's source locale is the document's. `addResource` checks this before it dispatches, so the branch method is only called that way.
- Codec.KeptVariants: states only that at most one variant is kept per `<tuv>`. Its meaning is given by `Codec.ReadVariant` and `Codec.ReadVariantsAdds`.
- Tmx.Tmx.Deserialize: the units left in the index after the list is cleared are modelled as `Detached` entries, not as shared objects. Changes made through them are therefore not visible, just as they are not visible in the document.
- Store.Insert: the fresh-key case states the new list and index outright. The existing-key case is stated separately, in `Store.InsertExisting`.
