# JupiterOne SDK: `document` command and bulk JSON export, modelled in Dafny

This project models two pieces of the JupiterOne integration SDK.

**The `j1-integration document` command** (`document.ts`) works in four steps:

- It walks an integration's steps in dependency order.
- It collects the entity and relationship metadata the steps declare. It keeps one record per `_type`, and the first declaration wins.
- It renders that metadata as a Markdown "Data Model" section. The section is framed by an HTML-comment start marker and end marker.
- It splices the section into the existing documentation file between those markers. If the file has no start marker, it appends the section instead.

If no step declares anything, the command stops before it touches the file.

**The bulk export** (`bulkDownloadToJson.ts`) pages through an account's entities or relationships with a cursor:

- Every page is grouped by `_type`.
- Each group is written to its own file, `<storageDirectory>/json/<assetType>/<_type>/<uuid>.json`.
- After each page, the running item total is reported to a progress callback.
- Each request waits for the previous page's files and progress call.

Modules:

- `Optional`: `Option` and JavaScript truthiness of an optional string.
- `Text`: `indexOf` (with and without a start position), containment, `endsWith` and `join`, with their lemmas.
- `FirstSeen`: first-seen deduplication by a string key. It is the `Set`-guarded `push` loop of the collector, and `_.groupBy`'s key order.
- `StepMetadata`: steps, their metadata, `integrationStepsToMap` and `collectGraphObjectMetadataFromSteps`.
- `Documentation`: class values, table rows, the framed section, both versions of the marker splice, and the command.
- `Grouping`: `_.groupBy(objects, '_type')` and the proof that it is a partition.
- `BulkDownload`: request paths, the per-page export, the pagination loop with its trace of effects, and what a whole download requests, reports and writes, in which order.

**Inputs the model takes as parameters:**

- The dependency order is given as a sequence of step identifiers. `AllDeclared` requires every identifier in it to name a step, which is what the cast at `document.ts:185-187` takes for granted.
- The Markdown table renderer is any function from rows to text.
- The remote service is a map from request path to page. A request path that is not in the map fails.
- `uuid()` is an oracle: its n-th answer names the n-th file.

**Where the code differs from its evident intent:**

- The splice is meant to replace the text between the start marker and the end marker that follows it.
- The code at `document.ts:278` searches for the end marker from the start of the file instead.
- `ReplaceBetweenDocumentMarkersAsWritten` models the code exactly, and `ReplaceBetweenDocumentMarkers` is the corrected version. The difference is recorded under Findings.
- The command (`ExecuteDocumentAction`) calls the splice as written, as the code does.
- On a file whose markers are in order (no end marker before the first start marker has ended), the two splices agree, so the command then writes what the corrected splice writes.

## Model

| member | source | states |
|---|---|---|
| StepMetadata.IntegrationStepsToMap | packages/integration-sdk-cli/src/commands/document.ts:115-128 | the map has a key exactly for each step identifier, and under it the last step with that identifier (later steps overwrite earlier ones) |
| StepMetadata.CollectGraphObjectMetadataFromSteps | packages/integration-sdk-cli/src/commands/document.ts:168-209 | visiting the steps in dependency order yields exactly the first-seen deduplication, by `_type`, of the entity declarations met on the walk, and separately of the relationship declarations |
| StepMetadata.CollectedMetadataIsFirstSeen | packages/integration-sdk-cli/src/commands/document.ts:179-205 | in each collected list: no two records share a `_type`; a `_type` is listed if and only if some visited step declares it; each record listed is the first declaration of its `_type`; records follow first-seen order; entities and relationships are deduplicated independently |
| FirstSeen.KeepFirstSeen | packages/integration-sdk-cli/src/commands/document.ts:189-205 | the inner loop appends exactly the records whose key is not yet in the set, taking the set along; the set grows by every key of the step's records |
| FirstSeen.DedupIsFirstSeen | packages/integration-sdk-cli/src/commands/document.ts:181-205 | first-seen deduplication has unique keys, covers exactly the keys of its input, keeps each key's first record and preserves first-seen order |
| FirstSeen.DedupFromAppend | packages/integration-sdk-cli/src/commands/document.ts:184-206 | deduplicating a walk split in two is deduplicating the first part, then the second part with the first part's keys already seen (the set carried from one step to the next) |
| FirstSeen.DedupEmpty | packages/integration-sdk-cli/src/commands/document.ts:56 | the deduplicated list is empty if and only if every key of the input was already seen; with nothing seen, if and only if the input is empty |
| Documentation.SingleClassAsList | packages/integration-sdk-cli/src/commands/document.ts:130-136 | a single `_class` and a one-element `_class` list are both documented as that class in backticks |
| Documentation.EmptyClassList | packages/integration-sdk-cli/src/commands/document.ts:135 | an empty `_class` list is documented as the empty string |
| Documentation.ClassListAppend | packages/integration-sdk-cli/src/commands/document.ts:135 | one more class in a non-empty list appends `, ` and that class in backticks, so the classes appear backticked, in order, separated by `, ` |
| Documentation.EntityTableDocumentsEachTypeOnce | packages/integration-sdk-cli/src/commands/document.ts:138-151 | for the collected entities, the table's `_type` column shows a backticked type if and only if a visited step declares that type; no two rows show the same type; the rows follow first-seen order, and each row documents the first declaration of its type (resource name, backticked `_type`, documented `_class`) |
| Documentation.RelationshipTableDocumentsEachTypeOnce | packages/integration-sdk-cli/src/commands/document.ts:153-166 | for the collected relationships, the table has one row per declared relationship `_type` after its header; no type is listed twice; a type is listed if and only if a visited step declares it; each row documents the first declaration of its type (backticked source type, bold `_class`, backticked target type) |
| Documentation.EntitySection | packages/integration-sdk-cli/src/commands/document.ts:217-229 | the entity part of the section is empty if and only if there are no entities |
| Documentation.RelationshipSection | packages/integration-sdk-cli/src/commands/document.ts:231-243 | the relationship part of the section is empty if and only if there are no relationships |
| Documentation.GenerateGraphObjectDocumentationFromStepsMetadata | packages/integration-sdk-cli/src/commands/document.ts:245-263 | whatever the tables hold, the generated section begins with the start marker and ends with the end marker |
| Documentation.GeneratedSectionIsWellFramed | packages/integration-sdk-cli/src/commands/document.ts:245-263 | when the section body (the fixed text together with the rendered tables) does not hold the end marker, the generated section holds no end marker after its start marker other than its closing one |
| Documentation.ReplaceBetweenDocumentMarkersAsWritten | packages/integration-sdk-cli/src/commands/document.ts:266-295 | as written: without a start marker the section is appended after a blank line; the missing-end-marker error is reported if and only if there is a start marker and no end marker anywhere; otherwise the new file is exactly the text before the first start marker, then the section, then the text after the first end marker of the file |
| Documentation.ReplaceBetweenDocumentMarkers | packages/integration-sdk-cli/src/commands/document.ts:266-295 | with the end marker searched after the start marker: without a start marker the section is appended after a blank line; the error is reported if and only if a start marker exists with no end marker after it; otherwise exactly the text from the first start marker to the first end marker after it is replaced, and everything outside it is kept |
| Documentation.RegenerationReplacesSection | packages/integration-sdk-cli/src/commands/document.ts:266-295 | running the splice again over a file it produced from a well-framed section gives what splicing the new section into the original file gives: a regenerated section replaces the old one |
| Documentation.AsWrittenEndBeforeStartDiverges | packages/integration-sdk-cli/src/commands/document.ts:278 | when the file's first end marker precedes its first start marker, the splice as written succeeds and differs from the corrected splice |
| Documentation.AsWrittenKeepsStaleSection | packages/integration-sdk-cli/src/commands/document.ts:274-294 | for a file made of the end marker alone, the first run with section `a` gives the end marker, a blank line and `a`; the second run with section `b` gives the end marker, `b` and then the stale `a`, each after a blank line, which differs from documenting the original file once with `b` |
| Documentation.AsWrittenAgreesInOrder | packages/integration-sdk-cli/src/commands/document.ts:270-294 | when no end marker begins before the first start marker has ended, the splice as written and the corrected splice give the same result, error included |
| Documentation.SpliceKeepsOrder | packages/integration-sdk-cli/src/commands/document.ts:270-294 | splicing a well-framed section into a file whose markers are in order gives a file whose markers are in order |
| Documentation.AsWrittenRegenerationReplacesSection | packages/integration-sdk-cli/src/commands/document.ts:266-295 | on a file whose markers are in order, documenting again with the splice as written replaces the previous section: the written file keeps its markers in order, and splicing a new section into it gives what splicing that section into the original file gives |
| Documentation.ExecuteDocumentAction | packages/integration-sdk-cli/src/commands/document.ts:54-82 | the command exits with nothing to document if and only if no visited step declares an entity or a relationship; otherwise the outcome is the as-written splice of the section generated from the deduplicated metadata (the new file, or the missing-end-marker error); and when the file's markers are in order, it is also the outcome of the corrected splice |
| BulkDownload.RequestPath | packages/cli/src/export/bulkDownloadToJson.ts:50 | the request path is `/<assetType>?includeDeleted=<bool>`, followed by `&cursor=<cursor>` exactly when the cursor is a non-empty string |
| BulkDownload.RequestPathDistinguishesCursors | packages/cli/src/export/bulkDownloadToJson.ts:50 | a request with a cursor differs from the first request, and two requests with cursors are equal if and only if their cursors are equal |
| BulkDownload.AssetPath | packages/cli/src/export/bulkDownloadToJson.ts:46 | the asset directory has three segments and begins with the storage directory; `DownloadFiles` states the whole path, `<storageDirectory>/json/<assetType>` |
| BulkDownload.ExportAssetGroupToJson | packages/cli/src/export/bulkDownloadToJson.ts:22-30 | a page is written as one file per group, as many files as the page has distinct `_type`s |
| BulkDownload.ExportWritesWholePage | packages/cli/src/export/bulkDownloadToJson.ts:22-30 | the files written for a page hold the page's items, each exactly as often as the page holds it |
| BulkDownload.ExportPlacesFiles | packages/cli/src/export/bulkDownloadToJson.ts:24-28 | each file of a page lies in the folder of its type under the asset directory, holds a non-empty list of items all of that type, and no two files of one page share a folder |
| BulkDownload.EmptyPageWritesNothing | packages/cli/src/export/bulkDownloadToJson.ts:23-24 | a page without items writes no file |
| BulkDownload.BulkDownloadToJson | packages/cli/src/export/bulkDownloadToJson.ts:40-59 | the `do … while` loop makes exactly the rounds of the download specification; its trace of effects is `DownloadTrace` of the run: the call that ensures the asset directory, then, round after round, the request, the export of the page and the progress call, then the failed request when one failed |
| BulkDownload.TraceShape | packages/cli/src/export/bulkDownloadToJson.ts:49-58 | the rounds' part of the trace (`Trace`, which follows the directory event) has three events per round: at positions 3i, 3i+1 and 3i+2 the i-th round's request, the export of its page and its progress call |
| BulkDownload.RequestsEveryThird | packages/cli/src/export/bulkDownloadToJson.ts:49-58 | the requests of the rounds' part of the trace are exactly its events at positions 3i, so between two consecutive requests lie exactly one export and one progress call |
| BulkDownload.RoundEventsWrite | packages/cli/src/export/bulkDownloadToJson.ts:50-57 | the events of a round write exactly the files of that round's page: the request and the progress call write nothing |
| BulkDownload.TraceWritesAreAllWrites | packages/cli/src/export/bulkDownloadToJson.ts:49-58 | the files the rounds' part of the trace writes are the files of the rounds, in round order; a failed last request adds none |
| BulkDownload.DownloadEffectsInOrder | packages/cli/src/export/bulkDownloadToJson.ts:49-58 | in a download's trace, after the directory event, the i-th request (position 3i+1) is followed by the export that writes exactly the i-th page's files, then the progress call with the items of the first i+1 pages, then (if there is a next round) the request with `&cursor=` and the i-th page's non-empty end cursor |
| BulkDownload.MoreFuelSamePaging | packages/cli/src/export/bulkDownloadToJson.ts:49-58 | paging that completes or fails within its fuel gives the same rounds and outcome with any larger fuel |
| BulkDownload.DownloadIgnoresSpareFuel | packages/cli/src/export/bulkDownloadToJson.ts:40-59 | a download that does not run out of fuel is the same download with more fuel, so the fuel bound does not affect downloads that end |
| BulkDownload.FetchFacts | packages/cli/src/export/bulkDownloadToJson.ts:49-58 | from any cursor on: each round asks with the previous round's cursor and holds the service's answer, every round but the last ended with a cursor, progress is the running item total, files are numbered consecutively, and the paging ends by completion (no cursor), failure (the next request unanswered) or the fuel bound |
| BulkDownload.DownloadRequests | packages/cli/src/export/bulkDownloadToJson.ts:41-58 | at least one request is made; the first carries no cursor; each later one carries `&cursor=` and the previous page's end cursor, which was non-empty; every round holds the service's answer; a completed download stopped at a page without a cursor |
| BulkDownload.DownloadProgress | packages/cli/src/export/bulkDownloadToJson.ts:42-57 | progress is reported once per page: the i-th value is the number of items on the first i+1 pages, the values never decrease, and the last is the total number of items fetched |
| BulkDownload.DownloadFiles | packages/cli/src/export/bulkDownloadToJson.ts:46-52 | the files lie under the asset directory `<storageDirectory>/json/<assetType>`, one per distinct type of each page, each in its type's folder and named by consecutive oracle answers; if the oracle's answers are all distinct, no path is written twice |
| BulkDownload.DirectoryEnsuredFirst | packages/cli/src/export/bulkDownloadToJson.ts:46-52 | a download's first effect ensures the asset directory, and no later effect does, so it comes before every request; the files the trace writes are those of the rounds, and each lies under the directory of that first event |
| BulkDownload.DirectoryEventOnce | packages/cli/src/export/bulkDownloadToJson.ts:47-49 | the trace of any run begins with its directory event, and no other event ensures a directory |
| BulkDownload.RunTraceWrites | packages/cli/src/export/bulkDownloadToJson.ts:47-58 | the files the whole trace of a run writes are exactly its rounds' files: the directory event and a failed request write none |
| BulkDownload.AllWritesHoldAllItems | packages/cli/src/export/bulkDownloadToJson.ts:49-58 | across the whole download, the files hold every fetched item exactly as often as it was fetched, and nothing else |
| BulkDownload.AllWritesCons | packages/cli/src/export/bulkDownloadToJson.ts:50-58 | a page's files are written before those of any later page |
| BulkDownload.RepeatingCursorNeverCompletes | packages/cli/src/export/bulkDownloadToJson.ts:54-58 | a page that answers with its own cursor again keeps the loop requesting until the fuel bound: such a download never completes |
| Grouping.GroupByTypePartition | packages/cli/src/export/bulkDownloadToJson.ts:23 | the groups, one after the other, are a permutation of the page |
| Grouping.GroupTypesDistinct | packages/cli/src/export/bulkDownloadToJson.ts:23-24 | no two groups share a `_type` |
| Grouping.GroupTypesCoverPage | packages/cli/src/export/bulkDownloadToJson.ts:23-24 | there is a group for a `_type` if and only if some item of the page has that `_type` |
| Grouping.GroupsNonEmpty | packages/cli/src/export/bulkDownloadToJson.ts:23-25 | every group is non-empty, and all its items have the group's `_type` |
| Grouping.GroupTypesInFirstSeenOrder | packages/cli/src/export/bulkDownloadToJson.ts:24 | groups appear in the order in which their `_type`s first occur on the page |
| Grouping.ItemsOfTypeAppend | packages/cli/src/export/bulkDownloadToJson.ts:23 | each group keeps the page's order: the items of one type in a concatenation are those of the first part followed by those of the second |
| Grouping.ItemsOfTypeCount | packages/cli/src/export/bulkDownloadToJson.ts:23 | a group holds each item of its type exactly as often as the page does, and no item of another type |

## Left out

- I/O and logging (`loadConfig`, reading and writing the documentation file, `writeFileToPath`, console output): the model returns the new file or the list of writes instead.
- `ensureDirectoryExists`: its call is the `EnsureDirectory` event that opens the trace. What it does on the file system is not modelled.
- The `commander` command definition and default paths: command-line plumbing.
- `buildStepDependencyGraph(...).overallOrder()`. It is not part of this model. The order is a parameter, and `AllDeclared` requires every identifier in it to name a step.
- `markdown-table`: treated as an unknown renderer. `GeneratedSectionIsWellFramed` therefore requires that the section body, fixed text and rendered tables together, does not hold the end marker.
- The API client, the API key and the base URL. The service is a map from request path to page, and an unanswered path stands for a failed request.
- `JSON.stringify` and `sanitizeContent`. A file's contents are modelled as the list of items it holds.
- `uuid()`: an oracle, given as a function of the file number. `DownloadFiles` proves that paths are distinct only when the oracle's answers are distinct.
- `path.join` normalisation: a path is modelled as its list of segments.
- `Promise.all` in `exportAssetGroupToJson`: the writes of one page are one `Export` event in the trace, and the files it writes are listed in group order. The order in which those concurrent writes complete is not modelled. The code waits for all of them before the next step.
- `_.groupBy` key order: `Object.keys` lists integer-like keys first in numeric order. The model lists `_type`s in first-seen order, the order for all other string keys.
- `progress` is not a callback. Each call is a `Progress` event in the trace, and its value is also recorded in that page's round.
- BulkDownload.BulkDownloadToJson: the source loops for as long as the service keeps answering with a cursor. The model bounds follow-up requests by `fuel` and ends with `OutOfFuel` when the bound is reached.
- Rejected promises other than an unanswered request, such as a failed write, are not modelled.

## Findings

| source | as written | input that shows it | evidently intended | confidence | as-written member | corrected member |
|---|---|---|---|---|---|---|
| packages/integration-sdk-cli/src/commands/document.ts:278 | the end marker is searched from the beginning of the file, not after the start marker | a file whose only content is the end marker: the first run appends the section after it; on the next run the end marker found is the old one at index 0, which lies before the start marker, so the old section is kept and the new one is inserted before it | search for the end marker after the start marker, so that only the section between the markers is replaced and the error is raised whenever no end marker follows the start marker | not executed | Documentation.ReplaceBetweenDocumentMarkersAsWritten, Documentation.AsWrittenKeepsStaleSection, Documentation.AsWrittenEndBeforeStartDiverges | Documentation.ReplaceBetweenDocumentMarkers, Documentation.RegenerationReplacesSection |
