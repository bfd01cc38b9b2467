# contentful-replicate: the copy engine

This project models the copy engine of contentful-replicate (`index.js`) in
Dafny and proves properties of the model. `copyEntry` fetches an entry from the
source environment and walks the `en-US` value of each field in key order. An
array value is walked row by row. For each value or row:

- an entry link is copied recursively, and the link is re-pointed at the copy;
- an asset link is handed to `copyAsset`.

The destination entry is created last, from the rewritten fields. `copyAsset`
builds a new `file` field that points at the source file's URL with `https:`
in front. It creates the destination asset, asks the destination to process
it, and then returns nothing.

The model is layered as follows:

- `Json`: the JavaScript values found in an entity's plain-object form. It
  covers truthiness, the optional property read `v?.k` and template-string
  conversion.
- `Entity`: entries, assets, field maps in key order, and `isPublished`.
- `Links`: link classification, the in-place id rewrite, and the
  destructuring `const { sys: { id } } = …`.
- `Destination`: the destination environment as a class. Its state is an
  ordered write log and an id counter. Each write carries the lineage
  (breadcrumb) it was made under.
- `CopySpec`: `copyEntry` and `copyAsset` as functions of the source and of
  the destination state. Each step returns its result and the new state. A
  failure stops the run, and what was already written stays.
- `Copy`: the same steps written the way the code runs them: loops over
  fields and rows, writing each rewritten value back. Each method is proved
  to compute exactly its `CopySpec` function.
- `CopyProps` and `CopyLinks`: the properties of a run. They cover how many
  entries a run creates, the order of creation, and what asset links do.
- `Prompt`: the `required` validator of the interactive prompts.

Where the code differs from what a full replication engine would do, the model
follows the code:

- No record is kept of what was already copied. An entry linked k times is
  created k times, and a link cycle that the walk reaches before any failure
  recurses forever. The model is therefore defined for a copy that starts at a
  ranked entry (`CopySpec.Ranked`) of a source in which every ranked entry
  links only to ranked entries of lower rank (`CopySpec.Acyclic`). Entries
  outside the ranking, cycles among them included, are allowed, since the copy
  never visits them (`CopyProps.UnreachableCycleIgnored`).
- Only the `en-US` value of a field is looked at. The new `file` field of an
  asset holds only `en-US`; the file's other locales are dropped.
- `copyAsset` has no `return`, so its promise resolves to `undefined`.
  Destructuring `sys.id` out of `undefined` throws. So every asset link whose
  asset exists and has a `file` field makes the copy fail. This happens after
  the asset has been created and processed, and before the linking entry is
  created. The model keeps this behaviour (`CopyLinks.AssetLinkFails`,
  `CopyLinks.AssetLinkBlocksEntry`).
- `isPublished` is defined but never called. No publish state is replicated.

## Model

| member | source | states |
|---|---|---|
| Entity.IsPublishedTable | index.js:32-37 | An entity without a `publishedVersion`, or with `publishedVersion` 0, is not published. Otherwise it is published exactly when `version` is one past `publishedVersion`, so an entity edited after publishing is not. |
| Json.FalsyValues | index.js:34 | The values the truthiness tests (here and at index.js:141) reject are exactly `undefined`, `null`, `false`, `0` and the empty string. |
| Links.LinkShape | index.js:64-66 | The optional-chain link test (here and at index.js:72-74, 81-83 and 89-91) holds exactly when the value is an object whose `sys` is an object with `type` "Link" and `linkType` the kind asked for; on any other shape the chain yields `undefined` and the test fails. |
| Entity.FindFieldFrom | index.js:140 | Finds the first field with the name (the one `fields.file` reads), or reports that there is none. |
| Links.SetLinkId | index.js:69 | Rewriting a link's id changes only `sys.id`: every other key of the link and of its `sys` keeps its value, and the link's target becomes the new id. |
| Links.SetLinkIdKeepsKind | index.js:69-75 | A rewritten link keeps its kind, so an entry link just re-pointed is never then taken for an asset link. |
| Links.DestructureSysId | index.js:76 | `const { sys: { id } } = v` fails with a TypeError exactly when `v` or `v.sys` is `undefined` or `null`; otherwise it yields the link target. |
| Destination.IdOfInjective | index.js:104-111 | Different counter values give different destination ids. |
| Destination.NextIdIsFresh | index.js:104-111 | The id the destination hands out next appears nowhere in its log. |
| Destination.Environment.CreateEntry | index.js:104-111 | `createEntry` returns a fresh id, unused so far, and appends exactly one entry creation with the content type, fields and lineage. |
| Destination.Environment.CreateAsset | index.js:154-159 | `createAsset` returns a fresh id and appends exactly one asset creation. |
| Destination.Environment.ProcessForAllLocales | index.js:163 | Processing an asset the environment created appends exactly one processing event for it. |
| CopySpec.Lineage | index.js:44 | `[...parents, id]` extends `parents` by one element, and that element is `id`. |
| CopySpec.FileMap | index.js:138-147 | The new `file` map has the key `en-US` exactly when the source file for `en-US` is truthy. When present, its value has exactly `fileName`, `contentType` and `upload`. The first two are copied. `upload` is `https:` followed by the template-string conversion of the URL value (`Json.TemplateString`, index.js:145), which for a string URL is that URL itself. |
| CopySpec.CopyAssetF | index.js:125-171 | A missing asset (the `getAsset` lookup, `CopySpec.GetAsset`, index.js:134) or a missing `file` field fails with its own error and writes nothing; success happens exactly when both are present. Otherwise the run creates one asset, then processes it, both under the lineage, and resolves to `undefined`. The created fields (`{ ...fields, file }`, `CopySpec.AssetCopyFields`, index.js:155-158) equal the source fields, except that `file` is replaced by the new file map in the same position. |
| CopySpec.AssetLinkF | index.js:72-78 | The asset half of the link checks succeeds exactly when the value is not an asset link. On success the value and the destination are unchanged. Every write made is under a lineage strictly longer than the caller's. |
| CopySpec.LinkF | index.js:64-78 | On success, an entry link is re-pointed at the copy of its own target: the id in the link is the id of the last write of the step, which is the creation of an entry with the target's content type under the lineage `[...lineage, target]`. Nothing else about the link changes (`CopySpec.LinkCopied`). An asset link cannot have been present. Any other value is unchanged and nothing is written. Only entries are created, one id per write. |
| CopySpec.RowsF | index.js:62-79 | The rows keep their number and order; rows already visited stay as they are. Each remaining row comes out as `LinkF` states: an entry link points at the copy of its own target, made during this walk. The copies are made in row order: an earlier row's copy has a smaller counter value, so it was created first. Only entries were created. |
| CopySpec.FieldF | index.js:60-96 | Name and locales are kept, and values of locales other than `en-US` are untouched. The `en-US` value stays an array exactly when it was one, and each checked value, row by row for an array, comes out as `RowsF` states. |
| CopySpec.FieldsF | index.js:59-97 | The fields keep their number and order, and each is remapped as `FieldF` states, every entry link pointing at the copy of its own target. The copies are made field by field: every copy made for an earlier field was created before every copy made for a later one. The counter advances once per write, and every write is an entry creation. |
| CopySpec.CopyEntryF | index.js:43-119 | A missing entry (the `getEntry` lookup, `CopySpec.GetEntry`, index.js:52) fails with `EntryNotFound` and writes nothing. A successful copy writes only entry creations (`CopySpec.EntryCopied`). The last is the copy itself, with the source's content type, the lineage `[...parents, id]` and the source fields remapped as `FieldsF` states, each entry link pointing at the copy of its own target made earlier in the run. Its id is the result. Every earlier write of the run is under a strictly longer lineage. A failed copy never created the entry itself. |
| Copy.CopyAsset | index.js:125-171 | The method's result and new destination state equal `CopySpec.CopyAssetF`. |
| Copy.RewriteLink | index.js:64-95 | The method's result and new destination state equal `CopySpec.LinkF`. |
| Copy.RewriteRows | index.js:63-79 | The in-place loop over the rows computes `CopySpec.RowsF`. |
| Copy.RewriteField | index.js:60-96 | The method's result and new destination state equal `CopySpec.FieldF`. |
| Copy.CopyEntry | index.js:43-119 | The loop over the fields, followed by `createEntry`, computes `CopySpec.CopyEntryF`. |
| CopyProps.EntryCount | index.js:59-111 | A successful copy creates exactly `Copies(id)` entries: one for the entry itself plus, for every entry link met, the copies of its target, counted once per occurrence. |
| CopyProps.CopySucceeds | index.js:43-119 | A copy succeeds exactly when the entry is `Copyable`, whatever the destination holds: the entry exists, no value checked in its fields is an asset link (an asset link always fails, see `copyAsset` at index.js:125-171), and the target of every entry link checked can be copied in turn. |
| CopyProps.CopyLeaf | index.js:43-119 | Copying an entry without fields creates just that entry, with the next id, its content type and the lineage `[...parents, id]`. |
| CopyProps.UnreachableCycleIgnored | index.js:43-119 | In a source where entry "x" links to itself, a copy of an entry that does not reach "x" is well defined and creates that entry alone. |
| CopyProps.DiamondRootCopy | index.js:43-119 | For an entry whose two fields link to the same entry "t", the copy creates "t" twice and then the root. The root's two fields point at the two different copies, in field order. |
| CopyProps.DiamondCopiesTwice | index.js:59-111 | The diamond source is ranked, its copy is as `DiamondRootCopy` states, and the two copies of "t" have different ids. |
| CopyLinks.TargetCreated | index.js:64-69 | A re-pointed entry link names an entry created in the stretch of writes that copied it. |
| CopyLinks.LinkedEntriesCreatedFirst | index.js:59-111 | After a successful copy, every entry link met in the entry's fields points at an entry created by the same run before the entry itself. |
| CopyLinks.CheckedNoAsset | index.js:72-77 | After a walk over the fields that succeeded, none of the values checked was an asset link. |
| CopyLinks.AssetLinkBlocksEntry | index.js:72-111 | An asset link among the values the copier checks makes the copy fail, and the entry is never created. |
| CopyLinks.AssetLinkFails | index.js:76 | An asset link to an existing asset with a `file` field creates and processes the asset, then fails with the destructuring TypeError. |
| Prompt.TrimEmptyIff | index.js:179 | A trimmed string is empty exactly when the string consists only of the characters Ramda's `trim` removes (U+180E included). |
| Prompt.RequiredRejectsBlank | index.js:173-180 | `required` answers `" "` (reject) exactly for strings made only of white space, the empty string included. It answers `true` for every other string and every non-string. |

## Left out

- The command line and the prompts (`main`, index.js:183-265): argument parsing, `inquirer`, client and environment set-up, and the final messages. Only the `required` validator is modelled.
- Console output: the spinner, `chalk`, `dedent` and the breadcrumb text. The lineage the breadcrumb shows is recorded with every write instead.
- `sleep` (index.js:15-17) and the two waits around asset processing, because time is not modelled.
- `errorHandler` (index.js:22-26). A failure is returned as an `Error` value; printing it and exiting the process are not modelled.
- The remote library. `getEntry` and `getAsset` are map lookups, and any id that is not a string present in the map is not found. `toPlainObject` is taken as given. Network errors, rate limits and server-side validation are not modelled.
- Destination ids. The server chooses them; the model hands out the decimal string of a counter, which only needs to be distinct.
- Link cycles that the walk reaches before any failure. The code recurses forever on them. The model requires a ranking of the entries reachable through entry links from the copied entry (`CopySpec.Ranked`, `CopySpec.Acyclic`); cycles among entries no entry link leads to from there are allowed (`CopyProps.UnreachableCycleIgnored`).
- CopySpec.Acyclic: a rank cannot depend on walk order, so the model also leaves out the runs that would fail before the walk reaches a link cycle: a cycle reachable from the copied entry is excluded even when an earlier asset link, or an earlier link to a missing entry, ends the run first (index.js:76, 93 and 52). In the code such runs end with that failure and never enter the cycle.
- Repeated field names. A field map is modelled as a sequence of named fields, which could repeat a name; the keys of a JavaScript object cannot repeat. Sources are taken to have distinct field names; on a repeated name, `Entity.FindFieldFrom` takes the first and the walk visits each occurrence, which corresponds to nothing in the code.
- Numbers are integers only. Floating point does not affect any link decision; it would only change how a numeric URL is printed.
- Key order inside values that are not field maps, such as `sys`, because no step depends on it.
- Aliasing. The code rewrites a link object that is shared with the fetched entry's field map. `Copy` writes the rewritten value back into its own copy of the fields instead, which gives the same created entry.
- UTF-16. Strings are sequences of Unicode scalar values rather than UTF-16 code units, which makes no difference to trimming, since every character Ramda's `trim` removes is a single code unit.
