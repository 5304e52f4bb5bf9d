/** The bulk upload pipeline: read the three sheets, process each tab, validate in
    stages, and only when no stage found anything, build the payloads, submit them
    and classify the responses. The schemas, the date handling and the save
    requests are parameters. */
module Manager {
  import opened Wrappers
  import opened Json
  import opened Errors
  import opened Utils
  import opened Process
  import opened Validate
  import opened Build
  import opened Submit

  // ---------------------------------------------------------------------------
  // Reading the sheets
  // ---------------------------------------------------------------------------

  /** A decoded workbook: the rows of each sheet, by sheet name. */
  type Workbook = map<string, seq<SheetRow>>

  function MissingSheet(name: string): Thrown {
    Error("Error", "File is missing the following sheet: " + name, None)
  }

  function EmptySheet(name: string): Thrown {
    Error("Error", "No data on the following sheet: " + name, None)
  }

  /** `getSheetData(workbook, name)`: the sheet's rows; a missing or empty sheet throws. */
  function GetSheetData(wb: Workbook, name: string): (r: Result<seq<SheetRow>, Thrown>)
    ensures name !in wb ==> r == Err(MissingSheet(name))
    ensures name in wb && |wb[name]| == 0 ==> r == Err(EmptySheet(name))
    ensures r.Ok? <==> name in wb && |wb[name]| > 0
    ensures r.Ok? ==> r.value == wb[name]
  {
    if name !in wb then Err(MissingSheet(name))
    else if |wb[name]| == 0 then Err(EmptySheet(name))
    else Ok(wb[name])
  }

  /** The rows of the three sheets, read in the order manifest, handlers, wastes. */
  datatype Sheets = Sheets(manifest: seq<SheetRow>, handlers: seq<SheetRow>, wastes: seq<SheetRow>)

  function ReadSheets(wb: Workbook): (r: Result<Sheets, Thrown>)
    ensures r.Ok? <==> forall name :: name in SheetNames ==> name in wb && |wb[name]| > 0
    ensures r.Ok? ==> r.value == Sheets(wb["manifest"], wb["handlers"], wb["wastes"])
    ensures r.Err? ==> exists name :: name in SheetNames && r.error in {MissingSheet(name), EmptySheet(name)}
  {
    var manifest :- GetSheetData(wb, "manifest");
    var handlers :- GetSheetData(wb, "handlers");
    var wastes :- GetSheetData(wb, "wastes");
    Ok(Sheets(manifest, handlers, wastes))
  }

  const SheetNames: set<string> := {"manifest", "handlers", "wastes"}

  // ---------------------------------------------------------------------------
  // Comment errors collected during processing
  // ---------------------------------------------------------------------------

  /** The first comment-error entry of every row that has one, in row order. */
  function FirstCommentErrors(rows: seq<ProcessedRow>): (r: seq<ErrorEntry>)
    ensures |r| <= |rows|
    ensures |r| == 0 <==> forall i :: 0 <= i < |rows| ==> |rows[i].commentErrors| == 0
    ensures forall k :: 0 <= k < |r| ==>
      exists i :: 0 <= i < |rows| && |rows[i].commentErrors| > 0 && r[k] == rows[i].commentErrors[0]
    ensures forall i :: 0 <= i < |rows| && |rows[i].commentErrors| > 0 ==> rows[i].commentErrors[0] in r
    decreases |rows|
  {
    if |rows| == 0 then []
    else
      var last := rows[|rows| - 1];
      var earlier := FirstCommentErrors(rows[..|rows| - 1]);
      assert forall i :: 0 <= i < |rows| - 1 ==> rows[..|rows| - 1][i] == rows[i];
      if |last.commentErrors| > 0 then earlier + [last.commentErrors[0]] else earlier
  }

  /** One row's share of the collected errors: its first comment error, if any. */
  function FirstOf(row: ProcessedRow): seq<ErrorEntry> {
    if |row.commentErrors| > 0 then [row.commentErrors[0]] else []
  }

  /** Collecting an earlier block of rows and then a later one gives the two blocks'
      errors one after the other: the list keeps the rows' order. */
  lemma {:induction false} FirstCommentErrorsAppend(a: seq<ProcessedRow>, b: seq<ProcessedRow>)
    ensures FirstCommentErrors(a + b) == FirstCommentErrors(a) + FirstCommentErrors(b)
    decreases |b|
  {
    if |b| == 0 {
      assert a + b == a;
    } else {
      var front, last := b[..|b| - 1], b[|b| - 1];
      assert (a + b)[..|a + b| - 1] == a + front;
      assert (a + b)[|a + b| - 1] == last;
      FirstCommentErrorsStep(a + b);
      FirstCommentErrorsAppend(a, front);
      FirstCommentErrorsStep(b);
      ConcatAssociates(FirstCommentErrors(a), FirstCommentErrors(front), FirstOf(last));
    }
  }

  /** The last row contributes its first comment error after the others'. */
  lemma FirstCommentErrorsStep(rows: seq<ProcessedRow>)
    requires |rows| > 0
    ensures FirstCommentErrors(rows) == FirstCommentErrors(rows[..|rows| - 1]) + FirstOf(rows[|rows| - 1])
  {
  }

  /** The errors are each row's first comment error, taken from the first row to
      the last. */
  lemma {:induction false} FirstCommentErrorsInRowOrder(rows: seq<ProcessedRow>)
    ensures |rows| > 0 ==> FirstCommentErrors(rows) == FirstOf(rows[0]) + FirstCommentErrors(rows[1..])
    ensures FirstCommentErrors([]) == []
  {
    if |rows| > 0 {
      FirstCommentErrorsAppend([rows[0]], rows[1..]);
      assert [rows[0]] + rows[1..] == rows;
      FirstCommentErrorsOne(rows[0]);
    }
  }

  /** A single row contributes its first comment error, if any. */
  lemma FirstCommentErrorsOne(row: ProcessedRow)
    ensures FirstCommentErrors([row]) == FirstOf(row)
  {
    assert [row][..0] == [];
  }

  /** `delete row.commentErrors`: the rows as the later stages see them. */
  function FieldsOf(rows: seq<ProcessedRow>): (r: seq<Object>)
    ensures |r| == |rows|
    ensures forall i :: 0 <= i < |r| ==> r[i] == rows[i].fields
  {
    seq(|rows|, i requires 0 <= i < |rows| => rows[i].fields)
  }

  /** Processing drops the `commentErrors` key from a row's fields. */
  lemma CommentErrorsRemoved(row: SheetRow, handleDate: Value -> Value)
    ensures "commentErrors" !in ProcessManifestRow(row, handleDate).fields
    ensures "commentErrors" !in ProcessWasteRow(row).fields
  {
    forall k | k in ManifestRewritten + WasteRewritten ensures |k| != |"commentErrors"| {
    }
    var manifestFields := ProcessManifestRow(row, handleDate).fields;
    assert manifestFields.Keys == row.cells.Keys - {"commentErrors"} + ManifestRewritten;
    var wasteFields := ProcessWasteRow(row).fields;
    assert wasteFields.Keys == row.cells.Keys - {"commentErrors"} + WasteRewritten;
  }

  // ---------------------------------------------------------------------------
  // Staged validation
  // ---------------------------------------------------------------------------

  /** The validator of each check. */
  datatype Schemas = Schemas(manifest: Validator, waste: Validator, handlerBasic: Validator, handlerFull: Validator)

  /** The validation stages, in the order they report. */
  datatype Stage = ManifestStage | WasteStage | HandlerBasicStage | HandlerTypeStage | HandlerFullStage {
    function Rank(): nat {
      match this
      case ManifestStage => 0
      case WasteStage => 1
      case HandlerBasicStage => 2
      case HandlerTypeStage => 3
      case HandlerFullStage => 4
    }
  }

  /** One element of `allErrors`: `{ manifestErrors }`, `{ wasteErrors }`,
      `{ handlerBasicErrors }`, `{ handlerTypeErrors }` or `{ handlerFullErrors }`. */
  datatype Report = Report(stage: Stage, entries: seq<ErrorEntry>)

  /** A stage's report, pushed only when it found something. */
  function Tagged(stage: Stage, entries: seq<ErrorEntry>): (r: seq<Report>)
    ensures |r| <= 1
    ensures |r| == 1 <==> |entries| > 0
    ensures |r| == 1 ==> r[0] == Report(stage, entries)
  {
    if |entries| > 0 then [Report(stage, entries)] else []
  }

  predicate HasStage(reports: seq<Report>, stage: Stage) {
    exists k :: 0 <= k < |reports| && reports[k].stage == stage
  }

  /** A stage's own report names that stage only, and only when it is pushed. */
  lemma TaggedStage(stage: Stage, entries: seq<ErrorEntry>, s: Stage)
    ensures WellStaged(Tagged(stage, entries))
    ensures HasStage(Tagged(stage, entries), s) <==> |entries| > 0 && s == stage
  {
    if |entries| > 0 && s == stage {
      assert Tagged(stage, entries)[0].stage == s;
    }
  }

  /** The entries reported for `stage`: those of the first report naming it, or
      none when no report does. */
  function EntriesOf(reports: seq<Report>, stage: Stage): seq<ErrorEntry>
    decreases |reports|
  {
    if |reports| == 0 then []
    else if reports[0].stage == stage then reports[0].entries
    else EntriesOf(reports[1..], stage)
  }

  /** A stage's own report holds its entries under that stage and nothing under
      any other. */
  lemma TaggedEntries(stage: Stage, entries: seq<ErrorEntry>, s: Stage)
    ensures EntriesOf(Tagged(stage, entries), s) == if s == stage then entries else []
  {
    if |entries| > 0 {
      assert Tagged(stage, entries)[1..] == [];
    }
  }

  /** In a join, a stage only one part reports has that part's entries. */
  lemma {:induction false} JoinedEntries(front: seq<Report>, back: seq<Report>, s: Stage)
    ensures !HasStage(front, s) ==> EntriesOf(front + back, s) == EntriesOf(back, s)
    ensures !HasStage(back, s) ==> EntriesOf(front + back, s) == EntriesOf(front, s)
    decreases |front|
  {
    if |front| == 0 {
      assert front + back == back;
      if !HasStage(back, s) {
        NoEntries(back, s);
      }
    } else {
      JoinedEntries(front[1..], back, s);
      assert (front + back)[1..] == front[1..] + back;
      if !HasStage(front, s) {
        assert front[0].stage != s;
        assert !HasStage(front[1..], s) by {
          forall k | 0 <= k < |front[1..]| ensures front[1..][k].stage != s {
            assert front[1..][k] == front[k + 1];
          }
        }
      }
      if !HasStage(back, s) && front[0].stage != s && HasStage(front[1..], s) {
        var k :| 0 <= k < |front[1..]| && front[1..][k].stage == s;
        assert front[k + 1].stage == s;
      }
    }
  }

  /** A list naming no report for a stage holds no entries for it. */
  lemma {:induction false} NoEntries(reports: seq<Report>, s: Stage)
    requires !HasStage(reports, s)
    ensures EntriesOf(reports, s) == []
    decreases |reports|
  {
    if |reports| > 0 {
      assert reports[0].stage != s;
      assert !HasStage(reports[1..], s) by {
        forall k | 0 <= k < |reports[1..]| ensures reports[1..][k].stage != s {
          assert reports[1..][k] == reports[k + 1];
        }
      }
      NoEntries(reports[1..], s);
    }
  }

  /** In a staged list, a stage is reported exactly when it has entries. */
  lemma {:induction false} EntriesShowStage(reports: seq<Report>, s: Stage)
    requires WellStaged(reports)
    ensures HasStage(reports, s) <==> |EntriesOf(reports, s)| > 0
    decreases |reports|
  {
    if !HasStage(reports, s) {
      NoEntries(reports, s);
    } else if reports[0].stage != s {
      var k :| 0 <= k < |reports| && reports[k].stage == s;
      assert reports[1..][k - 1].stage == s;
      EntriesShowStage(reports[1..], s);
    }
  }

  /** Every report is non-empty and the stages appear at most once, in order. */
  predicate WellStaged(reports: seq<Report>) {
    && (forall k :: 0 <= k < |reports| ==> |reports[k].entries| > 0)
    && (forall k, l :: 0 <= k < l < |reports| ==> reports[k].stage.Rank() < reports[l].stage.Rank())
  }

  /** What the validation stages leave behind: the reports, the processed manifest
      rows, the grouped waste rows (grouped only when the waste tab had no errors)
      and the handler sets (built only when the basic and type checks passed). */
  datatype Validated = Validated(
    allErrors: seq<Report>,
    manifests: seq<Object>,
    groupedWastes: Option<seq<Group<Object>>>,
    handlerSets: Option<seq<HandlerSet>>)

  /** The handler stages: the type check runs only when the basic check found
      nothing, and the handler sets are built and fully checked only when neither
      did. */
  datatype HandlerStages = HandlerStages(reports: seq<Report>, sets: Option<seq<HandlerSet>>)

  function CheckHandlers(handlers: seq<Object>, ids: seq<Value>, schemas: Schemas): (r: HandlerStages)
    ensures WellStaged(r.reports)
    ensures forall k :: 0 <= k < |r.reports| ==> r.reports[k].stage.Rank() >= HandlerBasicStage.Rank()
    ensures !HasStage(r.reports, WasteStage)
    ensures HasStage(r.reports, HandlerTypeStage) ==> !HasStage(r.reports, HandlerBasicStage)
    ensures r.sets.Some? <==> !HasStage(r.reports, HandlerBasicStage) && !HasStage(r.reports, HandlerTypeStage)
    ensures HasStage(r.reports, HandlerFullStage) ==> r.sets.Some?
    ensures r.sets.Some? ==> r.sets.value == GroupMapHandlers(TransformHandlers(handlers))
    ensures r.sets.Some? ==> HasStage(r.reports, HandlerFullStage) == (|ValidateAllHandlers(r.sets.value, schemas.handlerFull)| > 0)
    ensures HasStage(r.reports, HandlerBasicStage) <==> |ValidateHandlersBasic(handlers, ids, schemas.handlerBasic)| > 0
    ensures EntriesOf(r.reports, HandlerBasicStage) == ValidateHandlersBasic(handlers, ids, schemas.handlerBasic)
    ensures |ValidateHandlersBasic(handlers, ids, schemas.handlerBasic)| == 0 ==>
      && (HasStage(r.reports, HandlerTypeStage) <==> |ValidateHandlerTypes(GroupByManifestId(handlers))| > 0)
      && EntriesOf(r.reports, HandlerTypeStage) == ValidateHandlerTypes(GroupByManifestId(handlers))
    ensures r.sets.Some? ==> EntriesOf(r.reports, HandlerFullStage) == ValidateAllHandlers(r.sets.value, schemas.handlerFull)
  {
    var basic := ValidateHandlersBasic(handlers, ids, schemas.handlerBasic);
    if |basic| > 0 then BasicStage(basic) else TypeStage(handlers, schemas)
  }

  /** The basic check found something: its report alone, and no handler sets. */
  function BasicStage(basic: seq<ErrorEntry>): (r: HandlerStages)
    requires |basic| > 0
    ensures WellStaged(r.reports) && r.sets == None
    ensures forall k :: 0 <= k < |r.reports| ==> r.reports[k].stage == HandlerBasicStage
    ensures HasStage(r.reports, HandlerBasicStage)
    ensures !HasStage(r.reports, WasteStage) && !HasStage(r.reports, HandlerTypeStage)
    ensures !HasStage(r.reports, HandlerFullStage)
    ensures EntriesOf(r.reports, HandlerBasicStage) == basic
  {
    TaggedEntries(HandlerBasicStage, basic, HandlerBasicStage);
    TaggedStage(HandlerBasicStage, basic, WasteStage);
    TaggedStage(HandlerBasicStage, basic, HandlerBasicStage);
    TaggedStage(HandlerBasicStage, basic, HandlerTypeStage);
    TaggedStage(HandlerBasicStage, basic, HandlerFullStage);
    HandlerStages(Tagged(HandlerBasicStage, basic), None)
  }

  /** Once the basic check has passed: the type check on the rows grouped by
      manifestId, and the full stage only when it too finds nothing. */
  function TypeStage(handlers: seq<Object>, schemas: Schemas): (r: HandlerStages)
    ensures WellStaged(r.reports)
    ensures forall k :: 0 <= k < |r.reports| ==> r.reports[k].stage.Rank() > HandlerBasicStage.Rank()
    ensures !HasStage(r.reports, WasteStage) && !HasStage(r.reports, HandlerBasicStage)
    ensures r.sets.Some? <==> !HasStage(r.reports, HandlerTypeStage)
    ensures HasStage(r.reports, HandlerTypeStage) <==> |ValidateHandlerTypes(GroupByManifestId(handlers))| > 0
    ensures HasStage(r.reports, HandlerFullStage) ==> r.sets.Some?
    ensures r.sets.Some? ==> r.sets.value == GroupMapHandlers(TransformHandlers(handlers))
    ensures r.sets.Some? ==> HasStage(r.reports, HandlerFullStage) == (|ValidateAllHandlers(r.sets.value, schemas.handlerFull)| > 0)
    ensures EntriesOf(r.reports, HandlerBasicStage) == []
    ensures EntriesOf(r.reports, HandlerTypeStage) == ValidateHandlerTypes(GroupByManifestId(handlers))
    ensures r.sets.Some? ==> EntriesOf(r.reports, HandlerFullStage) == ValidateAllHandlers(r.sets.value, schemas.handlerFull)
  {
    var typeErrors := ValidateHandlerTypes(GroupByManifestId(handlers));
    if |typeErrors| > 0 then TypeFailed(typeErrors)
    else
      var r := FullStage(handlers, schemas);
      NoEntries(r.reports, HandlerTypeStage);
      r
  }

  /** The type check found something: its report alone, and no handler sets. */
  function TypeFailed(typeErrors: seq<ErrorEntry>): (r: HandlerStages)
    requires |typeErrors| > 0
    ensures WellStaged(r.reports) && r.sets == None
    ensures forall k :: 0 <= k < |r.reports| ==> r.reports[k].stage == HandlerTypeStage
    ensures HasStage(r.reports, HandlerTypeStage)
    ensures !HasStage(r.reports, WasteStage) && !HasStage(r.reports, HandlerBasicStage)
    ensures !HasStage(r.reports, HandlerFullStage)
    ensures EntriesOf(r.reports, HandlerBasicStage) == []
    ensures EntriesOf(r.reports, HandlerTypeStage) == typeErrors
  {
    TaggedEntries(HandlerTypeStage, typeErrors, HandlerBasicStage);
    TaggedEntries(HandlerTypeStage, typeErrors, HandlerTypeStage);
    TaggedStage(HandlerTypeStage, typeErrors, WasteStage);
    TaggedStage(HandlerTypeStage, typeErrors, HandlerBasicStage);
    TaggedStage(HandlerTypeStage, typeErrors, HandlerTypeStage);
    TaggedStage(HandlerTypeStage, typeErrors, HandlerFullStage);
    HandlerStages(Tagged(HandlerTypeStage, typeErrors), None)
  }

  /** Mapping the handler rows into handler sets and checking them in full. */
  function FullStage(handlers: seq<Object>, schemas: Schemas): (r: HandlerStages)
    ensures WellStaged(r.reports)
    ensures !HasStage(r.reports, WasteStage) && !HasStage(r.reports, HandlerBasicStage)
    ensures !HasStage(r.reports, HandlerTypeStage)
    ensures forall k :: 0 <= k < |r.reports| ==> r.reports[k].stage == HandlerFullStage
    ensures r.sets == Some(GroupMapHandlers(TransformHandlers(handlers)))
    ensures HasStage(r.reports, HandlerFullStage) == (|ValidateAllHandlers(r.sets.value, schemas.handlerFull)| > 0)
    ensures EntriesOf(r.reports, HandlerBasicStage) == []
    ensures EntriesOf(r.reports, HandlerFullStage) == ValidateAllHandlers(r.sets.value, schemas.handlerFull)
  {
    var sets := GroupMapHandlers(TransformHandlers(handlers));
    var full := ValidateAllHandlers(sets, schemas.handlerFull);
    TaggedEntries(HandlerFullStage, full, HandlerBasicStage);
    TaggedEntries(HandlerFullStage, full, HandlerFullStage);
    TaggedStage(HandlerFullStage, full, WasteStage);
    TaggedStage(HandlerFullStage, full, HandlerBasicStage);
    TaggedStage(HandlerFullStage, full, HandlerTypeStage);
    TaggedStage(HandlerFullStage, full, HandlerFullStage);
    HandlerStages(Tagged(HandlerFullStage, full), Some(sets))
  }

  /** The manifest and waste stages: each tab's schema errors merged with its
      comment errors; the waste rows are grouped only when their tab reported
      nothing. */
  datatype TabStages = TabStages(reports: seq<Report>, ids: seq<Value>, groupedWastes: Option<seq<Group<Object>>>)

  /** The manifest tab's errors: its schema errors merged with its rows' comment errors. */
  function ManifestTabErrors(manifestRows: seq<ProcessedRow>, schemas: Schemas): Result<seq<ErrorEntry>, Thrown> {
    MergeErrorsByRow(ValidateManifestInfo(FieldsOf(manifestRows), schemas.manifest), FirstCommentErrors(manifestRows))
  }

  /** The waste tab's errors: its schema and manifestId errors merged with its rows'
      comment errors. */
  function WasteTabErrors(manifestRows: seq<ProcessedRow>, wasteRows: seq<ProcessedRow>, schemas: Schemas): Result<seq<ErrorEntry>, Thrown> {
    MergeErrorsByRow(ValidateWastes(FieldsOf(wasteRows), GetManifestIds(FieldsOf(manifestRows)), schemas.waste),
                     FirstCommentErrors(wasteRows))
  }

  function CheckTabs(manifestRows: seq<ProcessedRow>, wasteRows: seq<ProcessedRow>, schemas: Schemas): (r: Result<TabStages, Thrown>)
    ensures r.Err? ==> r.error == NotIterable
    ensures r.Ok? <==> ManifestTabErrors(manifestRows, schemas).Ok? && WasteTabErrors(manifestRows, wasteRows, schemas).Ok?
    ensures r.Ok? ==> (HasStage(r.value.reports, ManifestStage) <==> |ManifestTabErrors(manifestRows, schemas).value| > 0)
    ensures r.Ok? ==> (HasStage(r.value.reports, WasteStage) <==> |WasteTabErrors(manifestRows, wasteRows, schemas).value| > 0)
    ensures r.Ok? ==> EntriesOf(r.value.reports, ManifestStage) == ManifestTabErrors(manifestRows, schemas).value
    ensures r.Ok? ==> EntriesOf(r.value.reports, WasteStage) == WasteTabErrors(manifestRows, wasteRows, schemas).value
    ensures r.Ok? ==> WellStaged(r.value.reports)
    ensures r.Ok? ==> forall k :: 0 <= k < |r.value.reports| ==> r.value.reports[k].stage.Rank() < HandlerBasicStage.Rank()
    ensures r.Ok? ==> !HasStage(r.value.reports, HandlerBasicStage) && !HasStage(r.value.reports, HandlerTypeStage)
    ensures r.Ok? ==> !HasStage(r.value.reports, HandlerFullStage)
    ensures r.Ok? ==> r.value.ids == GetManifestIds(FieldsOf(manifestRows))
    ensures r.Ok? ==> (r.value.groupedWastes.Some? <==> !HasStage(r.value.reports, WasteStage))
    ensures r.Ok? && r.value.groupedWastes.Some? ==> r.value.groupedWastes.value == GroupByManifestId(FieldsOf(wasteRows))
  {
    var manifestErrors :- ManifestTabErrors(manifestRows, schemas);
    var ids := GetManifestIds(FieldsOf(manifestRows));
    var wasteErrors :- WasteTabErrors(manifestRows, wasteRows, schemas);
    var grouped := if |wasteErrors| == 0 then Some(GroupByManifestId(FieldsOf(wasteRows))) else None;
    Ok(TabStages(TabReports(manifestErrors, wasteErrors), ids, grouped))
  }

  /** `{ manifestErrors }` then `{ wasteErrors }`, each only when non-empty. */
  function TabReports(manifestErrors: seq<ErrorEntry>, wasteErrors: seq<ErrorEntry>): (r: seq<Report>)
    ensures WellStaged(r)
    ensures forall k :: 0 <= k < |r| ==> r[k].stage.Rank() < HandlerBasicStage.Rank()
    ensures !HasStage(r, HandlerBasicStage) && !HasStage(r, HandlerTypeStage) && !HasStage(r, HandlerFullStage)
    ensures HasStage(r, ManifestStage) <==> |manifestErrors| > 0
    ensures HasStage(r, WasteStage) <==> |wasteErrors| > 0
    ensures EntriesOf(r, ManifestStage) == manifestErrors && EntriesOf(r, WasteStage) == wasteErrors
  {
    TabEntries(manifestErrors, wasteErrors);
    TabStaged(manifestErrors, wasteErrors);
    Tagged(ManifestStage, manifestErrors) + Tagged(WasteStage, wasteErrors)
  }

  /** The tab reports are staged, name only the tab stages, and name each tab's
      stage exactly when it has errors. */
  lemma TabStaged(manifestErrors: seq<ErrorEntry>, wasteErrors: seq<ErrorEntry>)
    ensures var r := Tagged(ManifestStage, manifestErrors) + Tagged(WasteStage, wasteErrors);
      && WellStaged(r)
      && (forall k :: 0 <= k < |r| ==> r[k].stage.Rank() < HandlerBasicStage.Rank())
      && (forall s: Stage :: HasStage(r, s) <==> (s == ManifestStage && |manifestErrors| > 0) || (s == WasteStage && |wasteErrors| > 0))
  {
    var front, back := Tagged(ManifestStage, manifestErrors), Tagged(WasteStage, wasteErrors);
    forall s: Stage ensures HasStage(front + back, s) <==> (s == ManifestStage && |manifestErrors| > 0) || (s == WasteStage && |wasteErrors| > 0) {
      TaggedStage(ManifestStage, manifestErrors, s);
      TaggedStage(WasteStage, wasteErrors, s);
      JoinedStage(front, back, s);
    }
    TaggedStage(ManifestStage, manifestErrors, ManifestStage);
    TaggedStage(WasteStage, wasteErrors, WasteStage);
    Staged(front, back);
  }

  /** Each tab's report holds that tab's errors. */
  lemma TabEntries(manifestErrors: seq<ErrorEntry>, wasteErrors: seq<ErrorEntry>)
    ensures var r := Tagged(ManifestStage, manifestErrors) + Tagged(WasteStage, wasteErrors);
      EntriesOf(r, ManifestStage) == manifestErrors && EntriesOf(r, WasteStage) == wasteErrors
  {
    var front, back := Tagged(ManifestStage, manifestErrors), Tagged(WasteStage, wasteErrors);
    TaggedStage(ManifestStage, manifestErrors, WasteStage);
    TaggedStage(WasteStage, wasteErrors, ManifestStage);
    TaggedEntries(ManifestStage, manifestErrors, ManifestStage);
    TaggedEntries(WasteStage, wasteErrors, WasteStage);
    JoinedEntries(front, back, ManifestStage);
    JoinedEntries(front, back, WasteStage);
  }

  /** Steps 2 and 3 of the pipeline. Merging schema errors with comment errors can
      throw; nothing else here does. */
  function ValidateSheets(sheets: Sheets, schemas: Schemas, handleDate: Value -> Value): (r: Result<Validated, Thrown>)
    ensures r.Err? ==> r.error == NotIterable
    ensures r.Ok? ==> WellStaged(r.value.allErrors)
    ensures r.Ok? ==> r.value.manifests == FieldsOf(ProcessManifestInfo(sheets.manifest, handleDate))
    ensures r.Ok? ==> (r.value.groupedWastes.Some? <==> !HasStage(r.value.allErrors, WasteStage))
    ensures r.Ok? && r.value.groupedWastes.Some? ==>
      r.value.groupedWastes.value == GroupByManifestId(FieldsOf(ProcessWasteInfo(sheets.wastes)))
    ensures r.Ok? ==> (r.value.handlerSets.Some? <==>
      !HasStage(r.value.allErrors, HandlerBasicStage) && !HasStage(r.value.allErrors, HandlerTypeStage))
    ensures r.Ok? && HasStage(r.value.allErrors, HandlerTypeStage) ==> !HasStage(r.value.allErrors, HandlerBasicStage)
    ensures r.Ok? && HasStage(r.value.allErrors, HandlerFullStage) ==> r.value.handlerSets.Some?
    ensures r.Ok? && r.value.handlerSets.Some? ==>
      r.value.handlerSets.value == GroupMapHandlers(TransformHandlers(ProcessHandlers(sheets.handlers)))
  {
    var manifestRows := ProcessManifestInfo(sheets.manifest, handleDate);
    var tabs :- CheckTabs(manifestRows, ProcessWasteInfo(sheets.wastes), schemas);
    var handlerStages := CheckHandlers(ProcessHandlers(sheets.handlers), tabs.ids, schemas);
    Staged(tabs.reports, handlerStages.reports);
    JoinedStage(tabs.reports, handlerStages.reports, WasteStage);
    JoinedStage(tabs.reports, handlerStages.reports, HandlerBasicStage);
    JoinedStage(tabs.reports, handlerStages.reports, HandlerTypeStage);
    JoinedStage(tabs.reports, handlerStages.reports, HandlerFullStage);
    Ok(Validated(tabs.reports + handlerStages.reports, FieldsOf(manifestRows), tabs.groupedWastes, handlerStages.sets))
  }

  /** A completed validation's parts: the tab stages, the handler stages run on the
      tab's manifest ids, and the reports of the one followed by the other. */
  lemma ValidateSheetsParts(sheets: Sheets, schemas: Schemas, handleDate: Value -> Value)
    returns (tabs: TabStages, handlerStages: HandlerStages)
    requires ValidateSheets(sheets, schemas, handleDate).Ok?
    ensures CheckTabs(ProcessManifestInfo(sheets.manifest, handleDate), ProcessWasteInfo(sheets.wastes), schemas) == Ok(tabs)
    ensures handlerStages == CheckHandlers(ProcessHandlers(sheets.handlers), tabs.ids, schemas)
    ensures var v := ValidateSheets(sheets, schemas, handleDate).value;
      v.allErrors == tabs.reports + handlerStages.reports && v.handlerSets == handlerStages.sets
      && tabs.ids == GetManifestIds(v.manifests)
  {
    tabs := CheckTabs(ProcessManifestInfo(sheets.manifest, handleDate), ProcessWasteInfo(sheets.wastes), schemas).value;
    handlerStages := CheckHandlers(ProcessHandlers(sheets.handlers), tabs.ids, schemas);
  }

  /** Validation completes exactly when neither tab's merge throws, and then the
      manifest and waste stages report the merged tab errors. */
  lemma ValidateSheetsTabEntries(sheets: Sheets, schemas: Schemas, handleDate: Value -> Value)
    ensures var manifestRows := ProcessManifestInfo(sheets.manifest, handleDate);
      ValidateSheets(sheets, schemas, handleDate).Ok? <==>
        ManifestTabErrors(manifestRows, schemas).Ok? && WasteTabErrors(manifestRows, ProcessWasteInfo(sheets.wastes), schemas).Ok?
    ensures var r := ValidateSheets(sheets, schemas, handleDate);
      var manifestRows := ProcessManifestInfo(sheets.manifest, handleDate);
      r.Ok? ==>
        && EntriesOf(r.value.allErrors, ManifestStage) == ManifestTabErrors(manifestRows, schemas).value
        && EntriesOf(r.value.allErrors, WasteStage) == WasteTabErrors(manifestRows, ProcessWasteInfo(sheets.wastes), schemas).value
  {
    if ValidateSheets(sheets, schemas, handleDate).Ok? {
      var tabs, handlerStages := ValidateSheetsParts(sheets, schemas, handleDate);
      TabEntriesBeforeHandlers(tabs.reports, handlerStages.reports);
    }
  }

  /** Before any handler reports, the tab stages' entries are the tab reports'. */
  lemma TabEntriesBeforeHandlers(tabs: seq<Report>, handlers: seq<Report>)
    requires forall k :: 0 <= k < |handlers| ==> handlers[k].stage.Rank() >= HandlerBasicStage.Rank()
    ensures EntriesOf(tabs + handlers, ManifestStage) == EntriesOf(tabs, ManifestStage)
    ensures EntriesOf(tabs + handlers, WasteStage) == EntriesOf(tabs, WasteStage)
  {
    JoinedEntries(tabs, handlers, ManifestStage);
    JoinedEntries(tabs, handlers, WasteStage);
  }

  /** The handler stages report what their validators returned: the basic check,
      the type check when the basic check passed, and the full check of the
      handler sets when they were built. */
  lemma ValidateSheetsHandlerEntries(sheets: Sheets, schemas: Schemas, handleDate: Value -> Value)
    requires ValidateSheets(sheets, schemas, handleDate).Ok?
    ensures var v := ValidateSheets(sheets, schemas, handleDate).value;
      var handlers := ProcessHandlers(sheets.handlers);
      var basic := ValidateHandlersBasic(handlers, GetManifestIds(v.manifests), schemas.handlerBasic);
      && EntriesOf(v.allErrors, HandlerBasicStage) == basic
      && (|basic| == 0 ==> EntriesOf(v.allErrors, HandlerTypeStage) == ValidateHandlerTypes(GroupByManifestId(handlers)))
    ensures var v := ValidateSheets(sheets, schemas, handleDate).value;
      v.handlerSets.Some? ==>
        EntriesOf(v.allErrors, HandlerFullStage) == ValidateAllHandlers(v.handlerSets.value, schemas.handlerFull)
  {
    var tabs, handlerStages := ValidateSheetsParts(sheets, schemas, handleDate);
    HandlerEntriesAfterTabs(tabs.reports, ProcessHandlers(sheets.handlers), tabs.ids, schemas);
  }

  /** After any tab reports, the handler stages' entries are what the handler
      validators returned. */
  lemma HandlerEntriesAfterTabs(tabs: seq<Report>, handlers: seq<Object>, ids: seq<Value>, schemas: Schemas)
    requires forall k :: 0 <= k < |tabs| ==> tabs[k].stage.Rank() < HandlerBasicStage.Rank()
    ensures var hs := CheckHandlers(handlers, ids, schemas);
      var basic := ValidateHandlersBasic(handlers, ids, schemas.handlerBasic);
      && EntriesOf(tabs + hs.reports, HandlerBasicStage) == basic
      && (|basic| == 0 ==> EntriesOf(tabs + hs.reports, HandlerTypeStage) == ValidateHandlerTypes(GroupByManifestId(handlers)))
      && (hs.sets.Some? ==> EntriesOf(tabs + hs.reports, HandlerFullStage) == ValidateAllHandlers(hs.sets.value, schemas.handlerFull))
  {
    HandlerEntriesAfter(tabs, CheckHandlers(handlers, ids, schemas).reports);
  }

  /** After reports naming only the tab stages, each handler stage's entries are
      the later reports'. */
  lemma HandlerEntriesAfter(tabs: seq<Report>, handlers: seq<Report>)
    requires forall k :: 0 <= k < |tabs| ==> tabs[k].stage.Rank() < HandlerBasicStage.Rank()
    ensures EntriesOf(tabs + handlers, HandlerBasicStage) == EntriesOf(handlers, HandlerBasicStage)
    ensures EntriesOf(tabs + handlers, HandlerTypeStage) == EntriesOf(handlers, HandlerTypeStage)
    ensures EntriesOf(tabs + handlers, HandlerFullStage) == EntriesOf(handlers, HandlerFullStage)
  {
    JoinedEntries(tabs, handlers, HandlerBasicStage);
    JoinedEntries(tabs, handlers, HandlerTypeStage);
    JoinedEntries(tabs, handlers, HandlerFullStage);
  }

  /** Some validator found something: the merged manifest or waste tab errors, the
      basic handler check, the type check, or the full check of the handler sets
      the rows map to. A later check the pipeline skips is skipped only because an
      earlier one already found something, so running every check here changes
      nothing. */
  predicate StageFound(sheets: Sheets, schemas: Schemas, handleDate: Value -> Value) {
    var manifestRows := ProcessManifestInfo(sheets.manifest, handleDate);
    var manifestErrors := ManifestTabErrors(manifestRows, schemas);
    var wasteErrors := WasteTabErrors(manifestRows, ProcessWasteInfo(sheets.wastes), schemas);
    var handlers := ProcessHandlers(sheets.handlers);
    || (manifestErrors.Ok? && |manifestErrors.value| > 0)
    || (wasteErrors.Ok? && |wasteErrors.value| > 0)
    || |ValidateHandlersBasic(handlers, GetManifestIds(FieldsOf(manifestRows)), schemas.handlerBasic)| > 0
    || |ValidateHandlerTypes(GroupByManifestId(handlers))| > 0
    || |ValidateAllHandlers(GroupMapHandlers(TransformHandlers(handlers)), schemas.handlerFull)| > 0
  }

  /** Validation completes with reports exactly when some validator found
      something. */
  lemma ValidationFoundIffStageFound(sheets: Sheets, schemas: Schemas, handleDate: Value -> Value)
    requires ValidateSheets(sheets, schemas, handleDate).Ok?
    ensures |ValidateSheets(sheets, schemas, handleDate).value.allErrors| > 0 <==> StageFound(sheets, schemas, handleDate)
  {
    var v := ValidateSheets(sheets, schemas, handleDate).value;
    var all := v.allErrors;
    var handlers := ProcessHandlers(sheets.handlers);
    var basic := ValidateHandlersBasic(handlers, GetManifestIds(v.manifests), schemas.handlerBasic);
    var types := ValidateHandlerTypes(GroupByManifestId(handlers));
    ValidateSheetsTabEntries(sheets, schemas, handleDate);
    ValidateSheetsHandlerEntries(sheets, schemas, handleDate);
    EntriesShowStage(all, ManifestStage);
    EntriesShowStage(all, WasteStage);
    EntriesShowStage(all, HandlerBasicStage);
    EntriesShowStage(all, HandlerTypeStage);
    EntriesShowStage(all, HandlerFullStage);
    if |all| > 0 {
      var s := all[0].stage;
      assert HasStage(all, s);
      if s == HandlerTypeStage {
        assert |basic| == 0;
      } else if s == HandlerFullStage {
        assert v.handlerSets.Some?;
      }
    }
    if StageFound(sheets, schemas, handleDate) && |basic| == 0 && |types| == 0 {
      assert v.handlerSets.Some?;
    }
  }

  /** Joining two staged report lists, the first's stages all earlier than the
      second's, keeps them staged. */
  lemma Staged(front: seq<Report>, back: seq<Report>)
    requires WellStaged(front) && WellStaged(back)
    requires forall k, l :: 0 <= k < |front| && 0 <= l < |back| ==> front[k].stage.Rank() < back[l].stage.Rank()
    ensures WellStaged(front + back)
  {
  }

  /** The join reports a stage exactly when one of its parts does. */
  lemma JoinedStage(front: seq<Report>, back: seq<Report>, s: Stage)
    ensures HasStage(front + back, s) <==> HasStage(front, s) || HasStage(back, s)
  {
    var all := front + back;
    if HasStage(all, s) {
      var k :| 0 <= k < |all| && all[k].stage == s;
      if k >= |front| {
        assert back[k - |front|].stage == s;
      }
    }
    if HasStage(front, s) {
      var k :| 0 <= k < |front| && front[k].stage == s;
      assert all[k].stage == s;
    }
    if HasStage(back, s) {
      var k :| 0 <= k < |back| && back[k].stage == s;
      assert all[k + |front|].stage == s;
    }
  }

  // ---------------------------------------------------------------------------
  // Classifying the responses
  // ---------------------------------------------------------------------------

  /** `{ manifestId, mtn }` */
  datatype SuccessEntry = SuccessEntry(manifestId: Value, mtn: Value)

  /** A fail entry's `response`: the rejected error for an API validation error,
      the fixed message otherwise. */
  datatype FailDetail = ErrorResponse(error: Thrown) | ErrorMessage(message: string)

  /** `{ manifestId, result, response }` */
  datatype FailEntry = FailEntry(manifestId: Value, result: string, response: FailDetail)

  /** `{ success, fail }` */
  datatype Results = Results(success: seq<SuccessEntry>, fail: seq<FailEntry>)

  /** `item.response.manifestTrackingNumber`, which throws on an `undefined` or
      `null` body. */
  function TrackingNumber(data: Value): (r: Result<Value, Thrown>)
    ensures r.Err? <==> data.Undefined? || data.Null?
    ensures data.Obj? ==> r == Ok(Get(data.fields, "manifestTrackingNumber"))
  {
    if data.Undefined? || data.Null? then Err(ReadOfNothing(data, "manifestTrackingNumber"))
    else Ok(Field(data, "manifestTrackingNumber"))
  }

  /** The fail entry of a response that was not saved. */
  function FailOf(item: ApiResponse): (r: FailEntry)
    ensures r.manifestId == item.manifestId && r.result == item.ResultName()
    ensures item.ApiValidationError? ==> r.response == ErrorResponse(item.error)
    ensures item.UnknownApiError? ==> r.response == ErrorMessage(item.message)
  {
    var detail :=
      if item.ResultName() == "apiValidationError" then ErrorResponse(item.error)
      else if item.UnknownApiError? then ErrorMessage(item.message)
      else ErrorMessage("");
    FailEntry(item.manifestId, item.ResultName(), detail)
  }

  /** The `forEach` that pushes each response onto `success` when its result is
      `'Saved'` and onto `fail` otherwise; reading the tracking number of a saved
      response can throw. */
  function Partition(responses: seq<ApiResponse>): (r: Result<Results, Thrown>)
    ensures r.Ok? <==> forall i :: 0 <= i < |responses| && responses[i].Saved? ==> TrackingNumber(responses[i].response).Ok?
    ensures r.Ok? ==> |r.value.success| + |r.value.fail| == |responses|
    decreases |responses|
  {
    if |responses| == 0 then Ok(Results([], []))
    else
      var item := responses[|responses| - 1];
      var prefix := responses[..|responses| - 1];
      assert forall i :: 0 <= i < |prefix| ==> prefix[i] == responses[i];
      var earlier :- Partition(prefix);
      if item.ResultName() == "Saved" then
        var mtn :- TrackingNumber(item.response);
        Ok(Results(earlier.success + [SuccessEntry(item.manifestId, mtn)], earlier.fail))
      else
        Ok(Results(earlier.success, earlier.fail + [FailOf(item)]))
  }

  /** Reference definition: the success entries of the saved responses, in order. */
  function Successes(responses: seq<ApiResponse>): seq<SuccessEntry>
    decreases |responses|
  {
    if |responses| == 0 then []
    else
      var item := responses[0];
      (if item.Saved? then [SuccessEntry(item.manifestId, Field(item.response, "manifestTrackingNumber"))] else [])
        + Successes(responses[1..])
  }

  /** Reference definition: the fail entries of the other responses, in order. */
  function Failures(responses: seq<ApiResponse>): seq<FailEntry>
    decreases |responses|
  {
    if |responses| == 0 then []
    else (if responses[0].Saved? then [] else [FailOf(responses[0])]) + Failures(responses[1..])
  }

  lemma {:induction false} SuccessesAppend(a: seq<ApiResponse>, b: seq<ApiResponse>)
    ensures Successes(a + b) == Successes(a) + Successes(b)
    ensures Failures(a + b) == Failures(a) + Failures(b)
    decreases |a|
  {
    if |a| > 0 {
      assert (a + b)[1..] == a[1..] + b;
      SuccessesAppend(a[1..], b);
    } else {
      assert a + b == b;
    }
  }

  /** Every response lands in exactly one list, keeping the responses' order: the
      saved ones in `success`, the others in `fail`. */
  lemma {:induction false} PartitionFilters(responses: seq<ApiResponse>)
    requires Partition(responses).Ok?
    ensures Partition(responses).value == Results(Successes(responses), Failures(responses))
    decreases |responses|
  {
    if |responses| > 0 {
      var n := |responses| - 1;
      var prefix := responses[..n];
      var item := responses[n];
      assert prefix + [item] == responses;
      assert Partition(prefix).Ok?;
      PartitionFilters(prefix);
      SuccessesAppend(prefix, [item]);
      SingleResponse(item);
      if item.Saved? {
        assert TrackingNumber(item.response).Ok?;
      }
    }
  }

  /** One response's share of each list. */
  lemma SingleResponse(item: ApiResponse)
    ensures item.ResultName() == "Saved" <==> item.Saved?
    ensures Successes([item]) ==
      if item.Saved? then [SuccessEntry(item.manifestId, Field(item.response, "manifestTrackingNumber"))] else []
    ensures Failures([item]) == if item.Saved? then [] else [FailOf(item)]
  {
    assert [item][1..] == [];
  }

  /** The number of saved responses. */
  function CountSaved(responses: seq<ApiResponse>): (n: nat)
    ensures n <= |responses|
    decreases |responses|
  {
    if |responses| == 0 then 0 else (if responses[0].Saved? then 1 else 0) + CountSaved(responses[1..])
  }

  lemma {:induction false} FilterSizes(responses: seq<ApiResponse>)
    ensures |Successes(responses)| == CountSaved(responses)
    ensures |Failures(responses)| == |responses| - CountSaved(responses)
    ensures CountSaved(responses) == 0 <==> forall i :: 0 <= i < |responses| ==> !responses[i].Saved?
    ensures CountSaved(responses) == |responses| <==> forall i :: 0 <= i < |responses| ==> responses[i].Saved?
    decreases |responses|
  {
    if |responses| > 0 {
      var rest := responses[1..];
      FilterSizes(rest);
      assert forall i :: 1 <= i < |responses| ==> responses[i] == rest[i - 1];
      if CountSaved(responses) == 0 {
        forall i | 0 <= i < |responses| ensures !responses[i].Saved? {
          if i > 0 { assert !rest[i - 1].Saved?; }
        }
      }
      if CountSaved(responses) == |responses| {
        forall i | 0 <= i < |responses| ensures responses[i].Saved? {
          if i > 0 { assert rest[i - 1].Saved?; }
        }
      }
    }
  }

  datatype BatchResult = Success | AllFailed | SomeFailed

  /** `batchResult`: all failed when something failed and nothing succeeded, some
      failed when both lists have entries, and success otherwise, including when
      there was nothing to submit. */
  function BatchResultOf(results: Results): (r: BatchResult)
    ensures r == AllFailed <==> |results.fail| > 0 && |results.success| == 0
    ensures r == SomeFailed <==> |results.fail| > 0 && |results.success| > 0
    ensures r == Success <==> |results.fail| == 0
  {
    if |results.fail| > 0 && |results.success| == 0 then AllFailed
    else if |results.fail| > 0 && |results.success| > 0 then SomeFailed
    else Success
  }

  /** The batch result in terms of the responses themselves. */
  lemma BatchResultOfResponses(responses: seq<ApiResponse>)
    requires Partition(responses).Ok?
    ensures var b := BatchResultOf(Partition(responses).value);
      && (b == AllFailed <==> |responses| > 0 && forall i :: 0 <= i < |responses| ==> !responses[i].Saved?)
      && (b == Success <==> forall i :: 0 <= i < |responses| ==> responses[i].Saved?)
  {
    PartitionFilters(responses);
    FilterSizes(responses);
  }

  // ---------------------------------------------------------------------------
  // processSubmitBulkData
  // ---------------------------------------------------------------------------

  /** Everything the pipeline consults besides the workbook. */
  datatype Environment = Environment(
    schemas: Schemas,
    handleDate: Value -> Value,
    formatDate: Value -> Result<Value, Thrown>,
    post: (nat, ManifestPayload) -> PostOutcome)

  /** The pipeline's answer. */
  datatype Outcome =
      /** `{ result: 'validationErrors', allErrors }` */
    | ValidationErrors(allErrors: seq<Report>)
      /** `{ result: 'submitted', batchResult, results }` */
    | Submitted(batchResult: BatchResult, results: Results)
      /** `{ result: 'systemError', error: error.message }` */
    | SystemError(error: Value)

  /** Build the payloads, submit them, classify the responses. */
  function BuildAndSubmit(v: Validated, env: Environment): (r: Result<Outcome, Thrown>)
    requires v.groupedWastes.Some? && v.handlerSets.Some?
    ensures r.Ok? ==> r.value.Submitted?
    ensures r.Ok? ==> |r.value.results.success| + |r.value.results.fail| == |v.manifests|
  {
    var payloads :- BuildBulkManifests(v.manifests, v.handlerSets.value, v.groupedWastes.value, env.formatDate);
    var responses :- SubmitAll(payloads, env.post);
    var results :- Partition(responses);
    Ok(Submitted(BatchResultOf(results), results))
  }

  /** The sheets are read and validation completes with some stage reporting. */
  predicate ValidationFails(wb: Workbook, env: Environment) {
    && ReadSheets(wb).Ok?
    && ValidateSheets(ReadSheets(wb).value, env.schemas, env.handleDate).Ok?
    && |ValidateSheets(ReadSheets(wb).value, env.schemas, env.handleDate).value.allErrors| > 0
  }

  /** The body of the `try`. */
  function Run(wb: Workbook, env: Environment): (r: Result<Outcome, Thrown>)
    ensures r.Ok? ==> !r.value.SystemError?
    ensures r.Ok? && r.value.ValidationErrors? <==> ValidationFails(wb, env)
    ensures r.Ok? && r.value.ValidationErrors? ==> |r.value.allErrors| > 0 && WellStaged(r.value.allErrors)
    ensures r.Ok? && r.value.Submitted? ==>
      "manifest" in wb && |r.value.results.success| + |r.value.results.fail| == |wb["manifest"]|
    ensures "manifest" !in wb ==> r == Err(MissingSheet("manifest"))
  {
    var sheets :- ReadSheets(wb);
    var v :- ValidateSheets(sheets, env.schemas, env.handleDate);
    ManifestCount(sheets, env.schemas, env.handleDate);
    Conclude(v, env)
  }

  /** Step 4 onwards: stop with the reports when there are any, otherwise build
      and submit. */
  function Conclude(v: Validated, env: Environment): (r: Result<Outcome, Thrown>)
    requires WellStaged(v.allErrors)
    requires v.groupedWastes.Some? <==> !HasStage(v.allErrors, WasteStage)
    requires v.handlerSets.Some? <==> !HasStage(v.allErrors, HandlerBasicStage) && !HasStage(v.allErrors, HandlerTypeStage)
    ensures r.Ok? ==> !r.value.SystemError?
    ensures r.Ok? && r.value.ValidationErrors? <==> |v.allErrors| > 0
    ensures r.Ok? && r.value.ValidationErrors? ==> r.value.allErrors == v.allErrors
    ensures r.Ok? && r.value.Submitted? ==> |r.value.results.success| + |r.value.results.fail| == |v.manifests|
  {
    if |v.allErrors| > 0 then Ok(ValidationErrors(v.allErrors))
    else
      assert !HasStage(v.allErrors, WasteStage) && !HasStage(v.allErrors, HandlerBasicStage)
        && !HasStage(v.allErrors, HandlerTypeStage);
      BuildAndSubmit(v, env)
  }

  /** A completed validation keeps one processed row per manifest row. */
  lemma ManifestCount(sheets: Sheets, schemas: Schemas, handleDate: Value -> Value)
    requires ValidateSheets(sheets, schemas, handleDate).Ok?
    ensures |ValidateSheets(sheets, schemas, handleDate).value.manifests| == |sheets.manifest|
  {
  }

  /** `processSubmitBulkData(filePath)`, for the workbook the file decodes to.
      - Anything thrown becomes a system error carrying the error's message.
      - Validation errors come with at least one report, every report non-empty,
        the stages in order.
      - A submitted batch has one success or fail entry per manifest row. */
  function ProcessSubmitBulkData(wb: Workbook, env: Environment): (r: Outcome)
    ensures r.SystemError? <==> Run(wb, env).Err?
    ensures r.SystemError? ==> r.error == MessageOf(Run(wb, env).error)
    ensures r.ValidationErrors? <==> ValidationFails(wb, env)
    ensures r.ValidationErrors? ==> |r.allErrors| > 0 && WellStaged(r.allErrors)
    ensures r.Submitted? ==> |r.results.success| + |r.results.fail| == |wb["manifest"]|
    ensures "manifest" !in wb ==> r == SystemError(Str("File is missing the following sheet: manifest"))
  {
    match Run(wb, env)
    case Ok(outcome) => outcome
    case Err(error) =>
      assert "manifest" !in wb ==> MessageOf(error) == Str("File is missing the following sheet: manifest");
      SystemError(MessageOf(error))
  }

  /** The pipeline answers with validation errors exactly when the sheets are read,
      neither tab's merge throws, and some validator found something: no error a
      validator returns lets the upload go ahead. */
  lemma ValidationErrorsIffStageFound(wb: Workbook, env: Environment)
    ensures ProcessSubmitBulkData(wb, env).ValidationErrors? <==>
      && ReadSheets(wb).Ok?
      && ValidateSheets(ReadSheets(wb).value, env.schemas, env.handleDate).Ok?
      && StageFound(ReadSheets(wb).value, env.schemas, env.handleDate)
  {
    if ReadSheets(wb).Ok? && ValidateSheets(ReadSheets(wb).value, env.schemas, env.handleDate).Ok? {
      ValidationFoundIffStageFound(ReadSheets(wb).value, env.schemas, env.handleDate);
    }
  }

  /** Fail-fast: once validation has reported anything, the pipeline's answer does
      not depend on the date formatting or the save requests, which are never
      reached. */
  lemma FailFast(wb: Workbook, env: Environment, formatDate: Value -> Result<Value, Thrown>,
                 post: (nat, ManifestPayload) -> PostOutcome)
    requires ProcessSubmitBulkData(wb, env).ValidationErrors?
    ensures ProcessSubmitBulkData(wb, env.(formatDate := formatDate, post := post)) == ProcessSubmitBulkData(wb, env)
  {
    var env' := env.(formatDate := formatDate, post := post);
    var sheets := ReadSheets(wb).value;
    assert ValidateSheets(sheets, env'.schemas, env'.handleDate) == ValidateSheets(sheets, env.schemas, env.handleDate);
  }
}
