# e-Manifest bulk upload: a Dafny model of the batch pipeline

The e-Manifest data upload tool reads a spreadsheet with three tabs (`manifest`,
`handlers`, `wastes`), normalises each tab's rows, validates them in stages, and,
only when no stage reports an error, assembles one e-Manifest payload per
manifest row, submits the payloads one after another to the e-Manifest save
endpoint and classifies the responses into a batch result.

This project models that pipeline as pure functions over immutable values:

- `Json` — JavaScript values as the pipeline sees them (cells, arrays, plain
  objects) and the implicit conversions the code relies on: truthiness, loose
  equality with `''`, `String(v)`, `Number(v)`, `parseInt(v)`.
- `Strings` — `split`, `join` and `trim` on strings, and decimal numerals.
- `Errors` — `{ field, message }` errors, error-report entries and thrown values.
- `Utils` — `groupByKey` and `mergeErrorsByRow`. Grouping keeps JavaScript's
  own-property key order: array-index keys first and ascending, then the other
  keys in insertion order.
- `Process` — row normalisation: multi-value code cells, the comment
  mini-language (`handlerId:label:description`, separated by `|`), handler
  column mapping onto nested paths, grouping by `manifestId`, and folding a
  manifest's handler rows into `{ generator, transporters, designatedFacility,
  broker? }`.
- `Validate` — duplicate ids, numeric valid ids, referential checks against the
  manifest tab, handler-role counts, and the reshaping of JSON-schema errors.
  The schema engine is a parameter (`Validator`).
- `Build` — waste lines from the fixed template and manifest payloads.
- `Submit` — the sequential submission loop and the classification of one save
  request's outcome. The request itself is a parameter.
- `Manager` — the orchestrator: reading the sheets, the staged validation gates,
  fail-fast, build and submit, the success/fail partition and the batch result,
  and the conversion of anything thrown into a system error.

A thrown exception is an `Err` of `Result<_, Thrown>`. The orchestrator turns it
into `{ result: 'systemError', error: error.message }`.

`manager.js` imports its tab-processing functions from `processBulk.js`, which is
not part of this model. The model assumes the following correspondences:

| `processBulk.js` function | shown counterpart modelled here |
|---|---|
| `processBulkManifestInfo` | `processManifestInfo` |
| `processBulkWasteInfo` | `processWasteInfo` |
| `processBulkHandlers` | `processHandlers` |
| `groupWasteHandlers` | `groupByManifestId` |
| `mapHandlers` | `groupMapHandlers` after `transformHandlers` |

`manager.js` (lines 73 and 82) hands `mapHandlers` the rows already grouped by
`groupWasteHandlers`. The model applies `transformHandlers` and then
`groupMapHandlers` to the ungrouped processed handler rows, on the assumption
that `mapHandlers(groupWasteHandlers(rows))` builds the same handler sets.

The code's behaviour is modelled as written, including these quirks:

- Street numbers stay text. The numeric-column test looks at the spreadsheet
  column name, and the column is named `...StreetNumber`.
- `0` and `false` cells count as empty, because the test uses loose equality.
- Comments with more than three `:`-pieces are accepted, and the extra pieces
  are dropped.
- One duplicate-role error is reported per role, not one per extra row.
- `txWasteCodes` are copied without being wrapped as `{ code }`.
- A handler set with a broker makes the full handler check return a caught
  `ReferenceError` (`broker is not defined`) in place of its report.
- The full handler check runs on handler sets whose `rowNumber` has already been
  deleted, so its entries carry `row: undefined`.
- The row-less "at least one ... row is required" entries make
  `mergeErrorsByRow` throw, through a spread of `undefined`, when the other
  error set is non-empty.
- The renderer (`src/renderer/renderer.js:120`) handles an `authErrors`
  result, but `manager.js` never produces one, and no source file produces or
  handles an `inputErrors` result. A missing or empty sheet and an
  authentication failure both end as `systemError`. The model follows
  `manager.js`.

## Model

| member | source | states |
|---|---|---|
| Process.ParseCodes | src/main/processing/support/process.js:163-166 | a falsy cell gives no codes; otherwise there is one code per pipe-separated segment (count of pipes plus one), each trimmed and free of pipes |
| Process.ParseCodesJoin | src/main/processing/support/process.js:163-166 | codes written into a cell joined by pipes read back as exactly those codes (round trip) |
| Process.TrimAll | src/main/processing/support/process.js:190 | `parts.map(c => c.trim())` keeps the length and trims each part in place |
| Strings.Split | src/main/processing/support/process.js:165 | `split(d)` yields count-of-`d` plus one pieces, none containing `d`, that join back to the input |
| Strings.SplitJoin | src/main/processing/support/process.js:174 | splitting a join of `d`-free pieces gives the pieces back |
| Process.CommentVerdict | src/main/processing/support/process.js:179-214 | a blank segment is "is empty"; fewer than three `:`-pieces is "is invalid"; a blank handlerId, label or description is "is missing one or more values"; otherwise the first three trimmed pieces form the comment, which is well formed |
| Process.Verdicts | src/main/processing/support/process.js:179 | one verdict per segment, numbered by the segment's index |
| Process.Gather | src/main/processing/support/process.js:175-217 | every verdict yields exactly one error or one result; results are well formed and every error has field `comment` |
| Process.ParseComments | src/main/processing/support/process.js:169-218 | a falsy cell gives no errors and no results; otherwise errors plus results number the segments; every emitted comment has non-empty, trimmed fields free of both delimiters |
| Process.ParseJoined | src/main/processing/support/process.js:174-217 | parsing a non-empty pipe-joined cell (two or more segments, or one non-empty segment) is gathering the per-segment verdicts, in segment order |
| Process.CommentsRoundTrip | src/main/processing/support/process.js:169-218 | well-formed comments written out in the mini-language parse back to exactly those comments, in order, with no errors |
| Process.ExtraPiecesDropped | src/main/processing/support/process.js:193-201 | a segment with a fourth `:`-piece is accepted and yields the comment of its first three pieces |
| Process.ConvertToString | src/main/processing/support/process.js:221-223 | `null` exactly for `undefined`, a string otherwise; strings are unchanged, and a number's text converts back to the number |
| Process.CommentErrorsOf | src/main/processing/support/process.js:7 | one `{ row, errors }` entry exactly when there are comment errors, none otherwise |
| Process.ProcessManifestRow | src/main/processing/support/process.js:1-11 | the row's own cells are kept, except that `comments`, `potentialShipDate` and `emergencyResponsePhone` are rewritten; the phone is `null` only when missing; the comment errors are reported under the row's sheet number exactly when there are some |
| Process.ManifestFields | src/main/processing/support/process.js:4-10 | the spread row with the three rewritten properties: every other cell unchanged |
| Process.ProcessWasteRow | src/main/processing/support/process.js:14-27 | the row's own cells are kept; each of the four code columns becomes its parsed list (empty exactly when the cell is falsy); the density unit is `null` only when missing; the comment errors are reported as for a manifest row |
| Process.WasteFields | src/main/processing/support/process.js:17-26 | the spread row with the code lists, comments and density unit rewritten: every other cell unchanged |
| Process.CodesField | src/main/processing/support/process.js:19-22 | a code column's value is a list, empty exactly when the cell is falsy |
| Process.WasteRowRoundTrip | src/main/processing/support/process.js:14-27 | a waste row whose code cell holds pipe-joined codes and whose comment cell holds rendered comments gets those codes and comments back, and no comment errors |
| Process.ManifestRowRoundTrip | src/main/processing/support/process.js:1-11 | a manifest row whose comment cell holds rendered comments gets those comments back, and no comment errors |
| Process.ProcessManifestInfo | src/main/processing/support/process.js:1-12 | one processed row per sheet row, in order |
| Process.ProcessWasteInfo | src/main/processing/support/process.js:14-28 | one processed row per sheet row, in order |
| Process.HandlerRow | src/main/processing/support/process.js:31-35 | the row's cells unchanged, plus `rowNumber` set to the sheet row number unless the row has its own `rowNumber` cell, which wins |
| Process.ProcessHandlers | src/main/processing/support/process.js:30-37 | one handler object per sheet row, in order |
| Process.SetPath | src/main/processing/support/process.js:148-157 | writing along a path succeeds exactly when every intermediate step is missing, falsy (and replaced by `{}`), or a plain object writable further down; a truthy primitive, array or Date step is refused |
| Process.SetDeep | src/main/processing/support/process.js:148-157 | `setDeep` on a dotted path succeeds exactly when the path split at `.` is writable in the sense of `SetPath` |
| Process.SetPathReadBack | src/main/processing/support/process.js:148-157 | after `setDeep` the value reads back at the path, with missing intermediate objects created |
| Process.SetPathKeys | src/main/processing/support/process.js:148-157 | the top-level keys gain at most the path's first step, and every other top-level key keeps its value |
| Process.SetPathKeepsOthers | src/main/processing/support/process.js:148-157 | every path that parts from the written path reads the same before and after (siblings preserved) |
| Process.SetPathKeepsWritable | src/main/processing/support/process.js:148-157 | a path that parts from the written one stays writable afterwards |
| Process.MapFromSpec | src/main/processing/support/process.js:129-145 | for a mapping of distinct, non-prefix paths, mapping a row never throws; each path holds the coerced cell, or nothing when the cell is loosely empty; nothing else is created |
| Process.HandlerMappingWellFormed | src/main/processing/support/process.js:40-63 | the handler mapping's paths are non-empty, dot-free per step, and pairwise part from each other |
| Process.MapRow | src/main/processing/support/process.js:65-66 | every handler-mapping path holds its column's coerced cell, or is absent when the cell is loosely empty; the top-level keys are exactly the first steps of the filled paths |
| Process.MapRowNothingElse | src/main/processing/support/process.js:129-145 | a mapped row holds nothing at any path outside the mapping |
| Process.StreetNumberStaysText | src/main/processing/support/process.js:126-141 | a non-empty street-number cell is stored as text, because the numeric test looks at the column name |
| Process.ZeroOrderDropped | src/main/processing/support/process.js:135 | an `order` cell of `0` or `false` is loosely empty, so `order` is absent |
| Process.ManifestIdNumeric | src/main/processing/support/process.js:126-138 | a non-empty `manifestId` cell is stored as `Number(cell)` |
| Process.TransformHandlers | src/main/processing/support/process.js:65-67 | one mapped row per handler row, in order |
| Utils.GroupByKey | src/main/processing/support/utils.js:1-13 | every item lands in exactly the group keyed by `String(item[key])`; each group keeps input order and is non-empty; keys are distinct and in own-property order |
| Utils.GroupBySpec | src/main/processing/support/utils.js:1-13 | the reduce's result has distinct keys in own-property order, the items' key set, and each group is the input filtered by its key |
| Utils.GroupBySize | src/main/processing/support/utils.js:1-13 | the group sizes add up to the number of items |
| Utils.AddToGroupSpec | src/main/processing/support/utils.js:6-10 | pushing an item adds its key if new, appends the item to that group only, and keeps the key order |
| Process.GroupByManifestId | src/main/processing/support/process.js:115-122 | one non-empty group per distinct `String(manifestId)`, each the rows with that id in input order, in own-property key order |
| Process.Strip | src/main/processing/support/process.js:87-89 | the item without `manifestId`, `type` and `rowNumber`, every other property unchanged |
| Process.FoldRoles | src/main/processing/support/process.js:85-107 | every role of the fold is free of the bookkeeping keys |
| Process.FoldRolesSpec | src/main/processing/support/process.js:85-107 | transporters are the stripped Transporter rows in input order; each other role is the last row of its type, or `{}` |
| Process.UnknownTypeIgnored | src/main/processing/support/process.js:103-105 | a row of any other type changes nothing |
| Process.GroupMapHandlers | src/main/processing/support/process.js:70-113 | one handler set per manifestId group, in group order, named by the group key; no bookkeeping key in any role; `broker` present only with fields |
| Process.GroupMapHandlersSpec | src/main/processing/support/process.js:70-113 | each handler set holds its manifest's rows: transporters in row order, last Generator, last DesignatedFacility, and the broker only when the last Broker row has fields |
| Validate.PropertyName | src/main/processing/support/validate.js:241 | the first segment of the instance path, free of `/` |
| Validate.PropertyNameOfPath | src/main/processing/support/validate.js:241 | the property name of `/a/b/...` is `a`, and of the root path is `''` |
| Validate.SchemaError | src/main/processing/support/validate.js:240-259 | an unexpected column names that column; a length error on a waste-code property gets the pipe-separator hint; any other error keeps its message and names its top-level property, or the missing property at the root |
| Validate.WasteCodeHint | src/main/processing/support/validate.js:247-257 | a min/maxLength error under a column gets the hint exactly when the column is a waste-code column, and otherwise keeps its message |
| Validate.ProcessSchemaErrors | src/main/processing/support/validate.js:239-260 | one error per schema error, same length and order |
| Validate.RowReports | src/main/processing/support/validate.js:20-40 | one `{ row: index + 1, errors }` entry per row with errors, in row order; no entry for a clean row; empty exactly when every row is clean |
| Validate.FrequencyMap | src/main/processing/support/validate.js:214-220 | the keys are the rows' `String(manifestId)`s, and each maps to the number of rows carrying it |
| Validate.FrequencyTotal | src/main/processing/support/validate.js:214-220 | the counts add up to the number of manifest rows |
| Validate.DuplicateIff | src/main/processing/support/validate.js:31 | a row's id counts more than once exactly when another row has the same id |
| Validate.ValidateManifestInfo | src/main/processing/support/validate.js:14-42 | every entry is a row's non-empty errors, numbered from 1, in row order |
| Validate.ManifestRowErrors | src/main/processing/support/validate.js:21-36 | a manifest row's errors are its reshaped schema errors, then one "is duplicated" error exactly when its id repeats |
| Validate.ManifestInfoClean | src/main/processing/support/validate.js:14-42 | the report is empty exactly when every row passes the schema and has a unique id |
| Validate.GetManifestIds | src/main/processing/support/validate.js:222-228 | exactly the numeric `manifestId`s, each once |
| Validate.IdsInFirstAppearanceOrder | src/main/processing/support/validate.js:222-228 | of any two valid ids, the earlier is carried by a row before every row carrying the later one |
| Validate.ValidateManifestIds | src/main/processing/support/validate.js:230-235 | exactly the valid ids that no row of the tab carries |
| Validate.MissingIdsAppend | src/main/processing/support/validate.js:230-235 | filtering earlier ids and then later ones gives the two results one after the other |
| Validate.MissingIdsInOrder | src/main/processing/support/validate.js:230-235 | the missing ids are the valid ids filtered from first to last by whether some row carries them |
| Validate.ValidateTab | src/main/processing/support/validate.js:44-81 | the row reports first, then one "at least one ... row is required" note per valid id missing from the tab |
| Validate.TabContents | src/main/processing/support/validate.js:44-118 | a tab's report names every row with errors under its row number and every valid id without a row, and is empty exactly when there are neither |
| Validate.ValidateWastes | src/main/processing/support/validate.js:44-81 | each waste row with schema or not-on-manifest-tab errors is reported under its row number; each valid id without a waste row gets its "at least one waste row" note; empty exactly when neither happens |
| Validate.ValidateHandlersBasic | src/main/processing/support/validate.js:83-118 | the same for the handler tab, with the note naming a handler row |
| Validate.MissingNotes | src/main/processing/support/validate.js:73-78 | one row-less note per missing id, in order |
| Validate.ReferentialCheck | src/main/processing/support/validate.js:50-65 | a row's errors are its schema errors, then the not-on-manifest-tab error exactly when its id is truthy and not a valid id |
| Validate.TabClean | src/main/processing/support/validate.js:83-118 | for schema-valid rows with valid ids, the report is empty exactly when every valid id has a row |
| Validate.MissingTypes | src/main/processing/support/validate.js:129-140 | at most three missing-role errors, all on field `type` |
| Validate.DuplicateTypes | src/main/processing/support/validate.js:143-164 | at most three duplicate-role errors, all on field `type` |
| Validate.TypeErrors | src/main/processing/support/validate.js:129-164 | the number of errors is the number of absent required roles plus the number of repeated single-row roles |
| Validate.TypeErrorsInOrder | src/main/processing/support/validate.js:129-164 | the errors are exactly: Generator, Transporter, DesignatedFacility missing when no row has that type, then Generator, DesignatedFacility, Broker duplicated when more than one row has it, each at most once |
| Validate.MissingSpec | src/main/processing/support/validate.js:129-140 | a Generator, Transporter or DesignatedFacility missing error appears exactly when no row has that type |
| Validate.DuplicateSpec | src/main/processing/support/validate.js:143-164 | a duplicate error for Generator, DesignatedFacility or Broker appears exactly when more than one row has that type; never one for Transporter |
| Validate.TypeErrorsEmpty | src/main/processing/support/validate.js:120-165 | a manifest has no type errors exactly when it has one Generator, at least one Transporter, one DesignatedFacility and at most one Broker |
| Validate.ValidateHandlerTypes | src/main/processing/support/validate.js:120-169 | every entry is an id entry with errors, and there are no more entries than groups |
| Validate.HandlerTypesAppend | src/main/processing/support/validate.js:120-169 | checking earlier groups and then later ones gives the two reports one after the other |
| Validate.HandlerTypesInOrder | src/main/processing/support/validate.js:120-169 | the report is the first group's entry (when it has type errors) followed by the rest's: at most one entry per group, in the groups' order |
| Validate.HandlerTypesSound | src/main/processing/support/validate.js:123-166 | every entry is a group's non-empty type errors, keyed by its manifestId |
| Validate.HandlerTypesComplete | src/main/processing/support/validate.js:123-166 | a group has an entry exactly when it has type errors |
| Validate.HandlerTypesClean | src/main/processing/support/validate.js:120-169 | the report is empty exactly when every group is well typed |
| Validate.FullError | src/main/processing/support/validate.js:199-202 | the field is the instance path without its leading `/`, or the missing property when that is empty; the message is kept |
| Validate.FullEntry | src/main/processing/support/validate.js:197-203 | the entry carries the handler's `rowNumber` and one error per schema error |
| Validate.FullReports | src/main/processing/support/validate.js:192-206 | one entry per failing handler, and none when every handler passes |
| Validate.FullReportsAppend | src/main/processing/support/validate.js:192-206 | checking one list of handlers and then another gives the two lists' entries one after the other |
| Validate.FullReportsInOrder | src/main/processing/support/validate.js:192-206 | the entries are the first handler's entry (when it fails) followed by the rest's, so they follow the list order |
| Validate.HandlerListReports | src/main/processing/support/validate.js:185-206 | a set's entries are the generator's, then the transporters' in order, then the designated facility's |
| Validate.ValidateHandlersFull | src/main/processing/support/validate.js:183-211 | with a `broker` key, the caught `ReferenceError` is returned in place of a list; otherwise the list is the full reports of `[generator, ...transporters, designatedFacility]`: the generator's entry, then the transporters' in order, then the facility's, and it is empty exactly when all pass |
| Validate.ValidateAllHandlers | src/main/processing/support/validate.js:171-181 | the flattened result holds row entries and the caught error only |
| Validate.AllHandlersAppend | src/main/processing/support/validate.js:171-181 | checking earlier sets and then later ones gives the two results one after the other |
| Validate.AllHandlersInOrder | src/main/processing/support/validate.js:171-181 | the result is the first set's check, flattened, followed by the rest's: the sets are reported in their order |
| Validate.AllHandlersClean | src/main/processing/support/validate.js:171-181 | empty exactly when no set has a broker and every handler passes |
| Validate.AllHandlersBroker | src/main/processing/support/validate.js:171-210 | the caught `ReferenceError` appears exactly when some set has a broker |
| Validate.FullRowsUndefined | src/main/processing/support/validate.js:198 | on handler sets from the grouping, every full-check entry has `row: undefined` |
| Utils.MergeErrorsByRow | src/main/processing/support/utils.js:15-42 | an empty first set gives the second unchanged, and an empty second set gives the first; otherwise it throws exactly when some entry has no `errors`, and else gives one entry per distinct row, in first-appearance order, holding set 1's then set 2's errors for that row, with no error lost or added |
| Utils.MergeRowsSpec | src/main/processing/support/utils.js:25-41 | the Map-based merge of a report is its merge: one entry per row, all its errors in order, first-appearance order |
| Build.ProcessWasteCodes | src/main/processing/support/buildManifest.js:228-234 | for a list, the i-th output is `{ code: codes[i] }` with the same length; anything else throws a TypeError |
| Build.WasteCodesRoundTrip | src/main/processing/support/buildManifest.js:228-234 | unwrapping the wrapped codes gives the codes back |
| Build.WrapIfTruthy | src/main/processing/support/buildManifest.js:184-193 | the wrapped list is present exactly when the cell is truthy, and wraps its codes |
| Build.LengthPositive | src/main/processing/support/buildManifest.js:209 | `.length > 0` throws on `undefined`/`null` and tests a list's or string's length |
| Build.ReadParts | src/main/processing/support/buildManifest.js:172-211 | the steps that can throw do so exactly when a truthy code cell is not a list or the comments are missing; each wrapped list is present exactly when its cell is truthy |
| Build.SetWasteLine | src/main/processing/support/buildManifest.js:157-226 | throws exactly when a needed code cell cannot be wrapped or the comments are `undefined`/`null`; DOT-hazardous lines get `dotInformation` (description, id number) and no `wasteDescription`, others the reverse; state code lists present exactly when truthy, `txWasteCodes` unwrapped; `managementMethod` present exactly when defined and then the row's code; `brInfo` and `br` exactly when both density cells are defined; comments exactly when non-empty and handling instructions exactly when defined, each then the row's value; container type and unit copied from the row |
| Build.Assemble | src/main/processing/support/buildManifest.js:158-225 | the line built from the template: each optional key present exactly under its condition and then holding the row's value (description and id number, management code, density and unit, comments, handling instructions); container type and unit of measurement copied from the row; counts and quantity through `parseInt`; the other fields as in the template or the row |
| Build.Additional | src/main/processing/support/buildManifest.js:209-214 | `comments` present exactly when the list is non-empty and `handlingInstructions` exactly when defined, each then holding the row's value |
| Build.ListsBuild | src/main/processing/support/buildManifest.js:176-199 | when every code cell is a list, all code lists are kept and unwrap to the cells |
| Build.ProcessedRowBuilds | src/main/processing/support/buildManifest.js:176-199 | a processed waste row's code lists always build |
| Build.Sequentially | src/main/processing/support/buildManifest.js:56-59 | awaiting each item in turn: one result per item in order, or the first item's error |
| Build.DropRowNumber | src/main/processing/support/buildManifest.js:40-43 | the role without `rowNumber`, every other property unchanged |
| Build.ShipDate | src/main/processing/support/buildManifest.js:46-50 | `potentialShipDate` is set exactly when defined, to the formatted date |
| Build.BuildManifestAll | src/main/processing/support/buildManifest.js:22-69 | fails without a handler set or waste group; otherwise `import` and `containsPreviousRejectOrResidue` are false, there is one waste line per waste row in order, roles lose `rowNumber`, the generator's emergency phone is the row's, and `comments` appear only when non-empty |
| Build.BuildManifestAllErrors | src/main/processing/support/buildManifest.js:46-62 | once the handler set is found, a failing date format throws the formatter's error; with the waste rows present, the first failing waste line's error is thrown; after that, an `undefined` or `null` `comments` throws the read of its `length` |
| Build.PayloadOf | src/main/processing/support/buildManifest.js:24-67 | the payload carries the row's submission type and status, the handler roles, the waste lines and the additional info |
| Build.CleanRolesUnchanged | src/main/processing/support/buildManifest.js:40-43 | roles from the handler grouping pass through unchanged |
| Build.FindHandlers | src/main/processing/support/buildManifest.js:13 | the first handler set whose manifestId loosely equals the row's, or none |
| Build.WasteGroup | src/main/processing/support/buildManifest.js:14 | the waste rows grouped under `String(manifestId)`, or none |
| Build.ManifestFor | src/main/processing/support/buildManifest.js:10-17 | a row whose manifestId no handler set loosely equals throws; a built payload is named by the row, ships from a handler set with a matching manifestId, and has one line per row of the waste group keyed by the row's id |
| Build.BuildBulkManifests | src/main/processing/support/buildManifest.js:2-20 | one payload per manifest row, in row order, each named by its row's manifestId, or the first failing row's error |
| Build.MissingHandlersFail | src/main/processing/support/buildManifest.js:10-17 | a row with no handler set fails the whole build |
| Build.MissingWastesFail | src/main/processing/support/buildManifest.js:10-17 | a row with handlers but no waste group fails the whole build |
| Submit.SubmitToApi | src/main/api/submitManifest.js:18-50 | success gives `Saved` with the response body; an error with own `cause` is rethrown; one with `operationStatus` is `apiValidationError` holding the error; any other is `unknownApiError` with the fixed message; the manifestId is copied |
| Submit.SubmitAll | src/main/api/submitManifest.js:5-16 | one response per payload in order, or the first throwing payload's error |
| Submit.SubmitRequestsToApi | src/main/api/submitManifest.js:5-16 | on success every payload is posted once and answered in order with its manifestId; on error the loop stops at the first failure, and no later payload is posted |
| Submit.StopsAtFailure | src/main/api/submitManifest.js:11-13 | the first failing request's error is the whole run's error |
| Manager.GetSheetData | src/main/processing/support/readSheets.js:13-20 | a missing sheet throws "File is missing the following sheet", an empty one "No data on the following sheet", otherwise its rows |
| Manager.ReadSheets | src/main/processing/manager.js:19-21 | succeeds exactly when all three sheets exist and have rows |
| Manager.FirstCommentErrors | src/main/processing/manager.js:29-43 | exactly the first comment-error entry of each row that has one |
| Manager.FirstCommentErrorsAppend | src/main/processing/manager.js:29-43 | collecting a block of rows and then a later block gives the two blocks' errors one after the other, so the list keeps row order |
| Manager.FirstCommentErrorsInRowOrder | src/main/processing/manager.js:29-43 | the list is the first row's first comment error (if any) followed by those of the remaining rows |
| Manager.FieldsOf | src/main/processing/manager.js:34 | each row without its comment errors, in order |
| Manager.CommentErrorsRemoved | src/main/processing/manager.js:34-42 | no processed row carries `commentErrors` after the delete |
| Manager.Tagged | src/main/processing/manager.js:51-53 | a stage's report is pushed exactly when it has errors |
| Manager.TaggedStage | src/main/processing/manager.js:51-53 | a pushed report names only its own stage |
| Manager.TabReports | src/main/processing/manager.js:49-62 | the manifest report appears exactly when the manifest tab has errors and holds them, and the waste report likewise for the waste tab |
| Manager.CheckTabs | src/main/processing/manager.js:45-65 | completes exactly when neither merge of schema and comment errors throws; the manifest and waste reports appear exactly when the merged lists are non-empty and hold exactly those lists; wastes are grouped exactly when the waste tab has no errors; valid ids are the numeric manifest ids |
| Manager.CheckHandlers | src/main/processing/manager.js:67-88 | the basic report appears exactly when `validateHandlersBasic` returns errors and holds them; once it passed, the type report appears exactly when `validateHandlerTypes` returns errors and holds them; handler sets are built only when both passed, and then the full report holds what `validateAllHandlers` returns |
| Manager.BasicStage | src/main/processing/manager.js:69-70 | a basic failure reports that stage only, with the basic errors, and builds no handler sets |
| Manager.TypeStage | src/main/processing/manager.js:72-88 | the type report appears exactly when the groups have type errors and holds them; otherwise the sets are built and the full report holds the full check's errors |
| Manager.TypeFailed | src/main/processing/manager.js:75-77 | a type failure reports that stage only, with the type errors, and builds no handler sets |
| Manager.FullStage | src/main/processing/manager.js:81-88 | the sets are mapped from the handler rows, and the full report appears exactly when the full check finds something and holds its errors |
| Manager.ValidateSheets | src/main/processing/manager.js:23-88 | the stage reports in stage order; wastes grouped exactly when the waste stage is silent; handler sets exactly when the basic and type stages are silent |
| Manager.ValidateSheetsTabEntries | src/main/processing/manager.js:45-62 | validation completes exactly when neither tab's merge throws, and the manifest and waste reports then hold the merged tab errors |
| Manager.ValidateSheetsHandlerEntries | src/main/processing/manager.js:67-88 | the basic report holds what the basic check returns; once it is empty, the type report holds what the type check returns; with handler sets built, the full report holds what the full check returns |
| Manager.HandlerEntriesAfterTabs | src/main/processing/manager.js:67-88 | after the tab reports, the handler stages' entries are what the handler validators returned |
| Manager.ValidateSheetsParts | src/main/processing/manager.js:45-88 | `allErrors` is the tab reports followed by the handler reports, the handler checks using the manifest tab's numeric ids |
| Manager.ValidationFoundIffStageFound | src/main/processing/manager.js:45-91 | a completed validation has reports exactly when some validator (merged manifest or waste errors, basic, type or full handler check) returned something |
| Manager.ValidationErrorsIffStageFound | src/main/processing/manager.js:18-93 | the pipeline returns `validationErrors` exactly when the sheets are read, neither merge throws, and some validator returned something |
| Manager.Staged | src/main/processing/manager.js:52-86 | reports of earlier stages followed by later ones stay in stage order |
| Manager.JoinedStage | src/main/processing/manager.js:52-86 | a stage is reported in a concatenation exactly when it is reported in one part |
| Manager.JoinedEntries | src/main/processing/manager.js:52-86 | in a concatenation, a stage reported by only one part has that part's entries |
| Manager.EntriesShowStage | src/main/processing/manager.js:51-86 | in staged reports, a stage is reported exactly when it has entries |
| Manager.TrackingNumber | src/main/processing/manager.js:112 | reading `manifestTrackingNumber` throws on a missing response body |
| Manager.FailOf | src/main/processing/manager.js:115-119 | a fail entry keeps the manifestId and result, and carries the response for `apiValidationError` and the error otherwise |
| Manager.Partition | src/main/processing/manager.js:108-121 | every response goes to exactly one of success and fail |
| Manager.SuccessesAppend | src/main/processing/manager.js:108-121 | the partition of a concatenation is the concatenation of the partitions |
| Manager.PartitionFilters | src/main/processing/manager.js:108-121 | success is the `Saved` responses and fail the others, each in response order |
| Manager.FilterSizes | src/main/processing/manager.js:108-121 | success has one entry per `Saved` response and fail one per other response |
| Manager.BatchResultOf | src/main/processing/manager.js:123-128 | `allFailed` exactly when only failures, `someFailed` exactly when both, `success` otherwise, including when both are empty |
| Manager.BatchResultOfResponses | src/main/processing/manager.js:108-128 | `allFailed` exactly when there are responses and none is `Saved`; `success` exactly when all are |
| Manager.BuildAndSubmit | src/main/processing/manager.js:95-130 | a submitted batch has one success or fail entry per manifest row |
| Manager.Run | src/main/processing/manager.js:9-130 | validation errors are returned exactly when a stage reported, with non-empty reports in stage order; a missing manifest sheet throws |
| Manager.Conclude | src/main/processing/manager.js:90-130 | validation errors are returned exactly when there are reports, and they are those reports; a submitted batch accounts for every manifest row |
| Manager.ProcessSubmitBulkData | src/main/processing/manager.js:8-136 | anything thrown becomes a system error carrying its message; validation errors exactly when a stage reported; a submitted batch accounts for every manifest row |
| Manager.FailFast | src/main/processing/manager.js:90-93 | once validation reported, the answer does not depend on date formatting or the save requests |

## Left out

- Reading the `.xlsx` file (`readWorkbook`) and `sheet_to_json` decoding: a workbook is given as the decoded rows of each sheet, with each row's `__rowNum__`.
- `processBulk.js` is not part of this model. The correspondences assumed for its functions are listed above.
- `handleDate` and the noon-UTC ship-date formatting depend on JavaScript `Date` and time zones. The manifest-row processing takes the date handler as a parameter, and payload assembly takes the formatter as one.
- Ajv and the JSON schema files: each schema is a `Validator` parameter returning Ajv's error objects for a row.
- The HTTP client, authentication, token cache and endpoints: one save request is a `PostOutcome` parameter (resolved body or rejected value). An authentication failure is a rejection carrying its own `cause`.
- `buildWasteManifest` is an alternate builder the orchestrator never calls.
- Console logging, JSON serialisation of the payload and the key order inside payload objects.
- Aliasing and in-place mutation: the code mutates rows and handler objects it has already grouped; the model computes new values. The results the pipeline reads are the same.
- Numbers are integers. Fractional cells are not modelled, and `String(n)` for numbers of 10^21 and more, which JavaScript writes in exponent form, is written out in full.
- `Promise.all` in `validateAllHandlers` is modelled as an in-order map; every promise resolves, because `validateHandlersFull` catches its own error.
- The UI, IPC bridge, credential store and environment settings.
- Build.BuildManifestAll: the `rowNumber` removal is stated on the payload (`ShippedFrom`), not as a mutation of the handler set passed in.
- Manager.BuildAndSubmit: states the accounting of the batch only; the contents of success and fail are stated by Manager.PartitionFilters and Manager.FailOf.
- Validate.ValidateHandlerTypes: its own contract bounds the report; what each entry holds is stated by Validate.HandlerTypesSound and Validate.HandlerTypesComplete, and their order and number by Validate.HandlerTypesInOrder.
- Process.SetPath: refuses a truthy array or `Date` met on an intermediate step, where JavaScript would add a named property to it; `mapRow` never meets this, because no path of its mapping table runs through another, so every intermediate step it writes starts missing and is created as `{}`.
- Json.StringToNumber: only decimal integers are read; hexadecimal (`0x1A`), binary, octal, exponent (`1e3`) and `Infinity` strings give NaN here, where `Number` gives their value.
- Json.ParseInt: only decimal digits are read; a `0x` prefix, which `parseInt` reads as hexadecimal, stops at the `x` here.
- Utils.GroupByKey: only own keys of the accumulator are modelled; an id such as `constructor` or `__proto__` reads an inherited `Object.prototype` member in JavaScript, on which `push` throws a `TypeError`.
- Validate.FrequencyMap: the same own-key simplification; for an id naming an inherited `Object.prototype` member the JavaScript count becomes a string and the duplicate check does not fire for it.
- Errors.MessageOf: a thrown plain `undefined` or `null` gives an `undefined` message here, where reading `error.message` in the catch of manager.js:132-135 would itself throw a `TypeError`; only a date formatter that rejects with such a value can reach it.
