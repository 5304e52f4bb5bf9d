/** Payload assembly: one e-Manifest waste line per processed waste row, built from
    a fixed template with keys kept, filled or removed according to the row, and one
    manifest payload per manifest row, joining the row with its handler set and its
    waste lines. Formatting of the ship date is a parameter. */
module Build {
  import opened Wrappers
  import opened Strings
  import opened Json
  import opened Errors
  import opened Utils
  import opened Process

  function TypeError(message: string): Thrown {
    Error("TypeError", message, None)
  }

  /** `v.prop` on `undefined` or `null`. */
  function ReadOfNothing(v: Value, prop: string): Thrown {
    TypeError("Cannot read properties of " + ToStr(v) + " (reading '" + prop + "')")
  }

  /** `v[k]` for any value: a plain object's own property, `undefined` elsewhere. */
  function Field(v: Value, k: string): Value {
    if v.Obj? then Get(v.fields, k) else Undefined
  }

  /** `v` is a plain object with an own property `k`. */
  predicate Has(v: Value, k: string) {
    v.Obj? && k in v.fields
  }

  /** `{ code: c }` */
  function Code(c: Value): Value {
    Obj(map["code" := c])
  }

  // ---------------------------------------------------------------------------
  // processWasteCodes
  // ---------------------------------------------------------------------------

  /** `processWasteCodes(codes)`: each code wrapped as `{ code }`, in order. Only a
      list has `forEach`; anything else throws. */
  function ProcessWasteCodes(codes: Value): (r: Result<Value, Thrown>)
    ensures r.Ok? <==> codes.Arr?
    ensures r.Ok? ==> r.value.Arr? && |r.value.items| == |codes.items|
    ensures r.Ok? ==> forall i :: 0 <= i < |codes.items| ==> r.value.items[i] == Code(codes.items[i])
    ensures r.Err? ==> r.error.Error? && r.error.name == "TypeError"
  {
    match codes
    case Arr(items) => Ok(Arr(seq(|items|, i requires 0 <= i < |items| => Code(items[i]))))
    case Undefined => Err(ReadOfNothing(codes, "forEach"))
    case Null => Err(ReadOfNothing(codes, "forEach"))
    case _ => Err(TypeError("codes.forEach is not a function"))
  }

  /** The `code` of every `{ code }` in a list. */
  function Unwrap(v: Value): seq<Value> {
    if v.Arr? then seq(|v.items|, i requires 0 <= i < |v.items| => Field(v.items[i], "code")) else []
  }

  /** Wrapping loses nothing: unwrapping gives the codes back. */
  lemma WasteCodesRoundTrip(codes: seq<Value>)
    ensures ProcessWasteCodes(Arr(codes)).Ok?
    ensures Unwrap(ProcessWasteCodes(Arr(codes)).value) == codes
  {
  }

  /** `if (cell) ... = await processWasteCodes(cell)`: `None` when the cell is falsy. */
  function WrapIfTruthy(cell: Value): (r: Result<Option<Value>, Thrown>)
    ensures r.Ok? && r.value.Some? <==> Truthy(cell) && cell.Arr?
    ensures r.Ok? && r.value.None? <==> !Truthy(cell)
    ensures r.Ok? && r.value.Some? ==> Unwrap(r.value.value) == cell.items
  {
    if Truthy(cell) then
      var wrapped :- ProcessWasteCodes(cell);
      WasteCodesRoundTrip(cell.items);
      Ok(Some(wrapped))
    else Ok(None)
  }

  // ---------------------------------------------------------------------------
  // setWasteLine
  // ---------------------------------------------------------------------------

  // A waste line is a record; an optional part is `None` where the source deletes
  // the key or never sets it. Every `{ code }` object of the JSON is written as its
  // code, except in the wrapped code lists, which keep their `{ code }` elements.

  /** `dotInformation`: the printed description and the UN/NA id number code. */
  datatype DotInformation = DotInformation(printedDotInformation: Value, idNumber: Value)

  /** `quantity`: container count and type code, quantity and unit code. */
  datatype Quantity = Quantity(containerNumber: Value, containerType: Value, quantity: Value, unitOfMeasurement: Value)

  /** `hazardousWaste`: the federal list is always present; the others may be deleted. */
  datatype HazardousWaste = HazardousWaste(
    federalWasteCodes: Value,
    generatorStateWasteCodes: Option<Value>,
    tsdfStateWasteCodes: Option<Value>,
    txWasteCodes: Option<Value>)

  /** `additionalInfo`, whose two keys are set only when there is something to say. */
  datatype AdditionalInfo = AdditionalInfo(comments: Option<Value>, handlingInstructions: Option<Value>)

  /** `brInfo`: density and density unit code. */
  datatype BrInfo = BrInfo(density: Value, densityUnitOfMeasurement: Value)

  datatype WasteLine = WasteLine(
    dotHazardous: Value,
    epaWaste: Value,
    dotInformation: Option<DotInformation>,
    wasteDescription: Option<Value>,
    quantity: Quantity,
    br: bool,
    hazardousWaste: HazardousWaste,
    pcb: bool,
    lineNumber: Value,
    managementMethod: Option<Value>,
    additionalInfo: AdditionalInfo,
    brInfo: Option<BrInfo>)

  /** `baseWasteLine`, the template every line starts from. */
  const BaseWasteLine: WasteLine := WasteLine(
    Bool(true), Bool(true),
    Some(DotInformation(Str(""), Str(""))),
    Some(Str("")),
    Quantity(Num(0), Str(""), Num(0), Str("")),
    false,
    HazardousWaste(Arr([]), Some(Arr([])), Some(Arr([])), Some(Arr([]))),
    false,
    Num(0),
    Some(Str("")),
    AdditionalInfo(None, None),
    Some(BrInfo(Num(0), Str(""))))

  /** `v.length > 0`; reading `length` of `undefined` or `null` throws. */
  function LengthPositive(v: Value): (r: Result<bool, Thrown>)
    ensures r.Err? <==> v.Undefined? || v.Null?
    ensures v.Arr? ==> r == Ok(|v.items| > 0)
    ensures v.Str? ==> r == Ok(|v.s| > 0)
  {
    match v
    case Undefined => Err(ReadOfNothing(v, "length"))
    case Null => Err(ReadOfNothing(v, "length"))
    case Arr(items) => Ok(|items| > 0)
    case Str(s) => Ok(|s| > 0)
    case Obj(fields) => Ok(var n := ToNumber(Get(fields, "length")); n.Num? && n.n > 0)
    case _ => Ok(false)
  }

  /** `additionalInfo.comments` when the list is not empty, and
      `additionalInfo.handlingInstructions` when it is defined. */
  function Additional(hasComments: bool, comments: Value, handling: Value): (r: AdditionalInfo)
    ensures r.comments.Some? <==> hasComments
    ensures r.handlingInstructions.Some? <==> !handling.Undefined?
    ensures r.comments.Some? ==> r.comments.value == comments
    ensures r.handlingInstructions.Some? ==> r.handlingInstructions.value == handling
  {
    AdditionalInfo(if hasComments then Some(comments) else None,
                   if handling.Undefined? then None else Some(handling))
  }

  /** The line is hazardous under DOT rules: `line.dotHazardous === true`. */
  predicate DotHazardous(line: Object) {
    Get(line, "dotHazardous") == Bool(true)
  }

  /** Both density cells are defined. */
  predicate HasDensity(line: Object) {
    !Get(line, "density").Undefined? && !Get(line, "densityUnitOfMeasurement").Undefined?
  }

  /** The codes of a waste-code cell are wrapped only when the cell is truthy, and
      then it must be a list. */
  predicate CodesBuildable(cell: Value) {
    !Truthy(cell) || cell.Arr?
  }

  /** `Some(v)` when `v` is truthy. */
  function IfTruthy(v: Value): Option<Value> {
    if Truthy(v) then Some(v) else None
  }

  /** What `setWasteLine` reads through calls that can throw: the wrapped code
      lists it will store, and whether there are comments. */
  datatype LineParts = LineParts(federal: Option<Value>, generator: Option<Value>, tsdf: Option<Value>, hasComments: bool)

  /** The throwing steps of `setWasteLine`, in the source's order: the federal codes
      (DOT-hazardous lines only), the generator and TSDF state codes, then
      `line.comments.length`. */
  function ReadParts(line: Object): (r: Result<LineParts, Thrown>)
    ensures r.Err? <==>
      || (DotHazardous(line) && !CodesBuildable(Get(line, "federalWasteCodes")))
      || !CodesBuildable(Get(line, "generatorWasteCodes"))
      || !CodesBuildable(Get(line, "tsdfWasteCodes"))
      || Get(line, "comments").Undefined? || Get(line, "comments").Null?
    ensures r.Ok? ==> (r.value.federal.Some? <==> DotHazardous(line) && Truthy(Get(line, "federalWasteCodes")))
    ensures r.Ok? && r.value.federal.Some? ==> Unwrap(r.value.federal.value) == Get(line, "federalWasteCodes").items
    ensures r.Ok? ==> (r.value.generator.Some? <==> Truthy(Get(line, "generatorWasteCodes")))
    ensures r.Ok? && r.value.generator.Some? ==> Unwrap(r.value.generator.value) == Get(line, "generatorWasteCodes").items
    ensures r.Ok? ==> (r.value.tsdf.Some? <==> Truthy(Get(line, "tsdfWasteCodes")))
    ensures r.Ok? && r.value.tsdf.Some? ==> Unwrap(r.value.tsdf.value) == Get(line, "tsdfWasteCodes").items
    ensures r.Ok? ==> Ok(r.value.hasComments) == LengthPositive(Get(line, "comments"))
  {
    var federal :- if DotHazardous(line) then WrapIfTruthy(Get(line, "federalWasteCodes")) else Ok(None);
    var generator :- WrapIfTruthy(Get(line, "generatorWasteCodes"));
    var tsdf :- WrapIfTruthy(Get(line, "tsdfWasteCodes"));
    var hasComments :- LengthPositive(Get(line, "comments"));
    Ok(LineParts(federal, generator, tsdf, hasComments))
  }

  /** `setWasteLine(line)`: the template filled from the row.
      - It throws exactly when a code cell it wraps is truthy but not a list, or
        when the comments are `undefined` or `null`.
      - A DOT-hazardous line (`dotHazardous === true`) has `dotInformation` with
        the description and id number and no `wasteDescription`; its federal list
        holds the wrapped codes when the cell is truthy and stays the template's
        empty list otherwise. Any other line has the description as
        `wasteDescription`, no `dotInformation`, and the empty federal list.
      - The state lists are present exactly when their cells are truthy, wrapped;
        the Texas codes likewise, but copied as they are.
      - `managementMethod` is present exactly when its code is defined; `brInfo`
        exactly when both density cells are, and then `br` is true.
      - The flags and line number are copied, counts go through `parseInt`, and
        `pcb` keeps the template's value. */
  function SetWasteLine(line: Object): (r: Result<WasteLine, Thrown>)
    ensures r.Err? <==>
      || (DotHazardous(line) && !CodesBuildable(Get(line, "federalWasteCodes")))
      || !CodesBuildable(Get(line, "generatorWasteCodes"))
      || !CodesBuildable(Get(line, "tsdfWasteCodes"))
      || Get(line, "comments").Undefined? || Get(line, "comments").Null?
    ensures r.Ok? ==> (r.value.dotInformation.Some? <==> DotHazardous(line))
    ensures r.Ok? ==> (r.value.wasteDescription.Some? <==> !DotHazardous(line))
    ensures r.Ok? && DotHazardous(line) ==>
      r.value.dotInformation.value == DotInformation(Get(line, "description"), Get(line, "idNumber"))
    ensures r.Ok? && !DotHazardous(line) ==> r.value.wasteDescription.value == Get(line, "description")
    ensures r.Ok? ==> var federal := r.value.hazardousWaste.federalWasteCodes;
      if DotHazardous(line) && Truthy(Get(line, "federalWasteCodes"))
      then Unwrap(federal) == Get(line, "federalWasteCodes").items
      else federal == BaseWasteLine.hazardousWaste.federalWasteCodes
    ensures r.Ok? ==> var h := r.value.hazardousWaste;
      && (h.generatorStateWasteCodes.Some? <==> Truthy(Get(line, "generatorWasteCodes")))
      && (h.tsdfStateWasteCodes.Some? <==> Truthy(Get(line, "tsdfWasteCodes")))
      && h.txWasteCodes == IfTruthy(Get(line, "txWasteCodes"))
      && (h.generatorStateWasteCodes.Some? ==>
            Unwrap(h.generatorStateWasteCodes.value) == Get(line, "generatorWasteCodes").items)
      && (h.tsdfStateWasteCodes.Some? ==>
            Unwrap(h.tsdfStateWasteCodes.value) == Get(line, "tsdfWasteCodes").items)
    ensures r.Ok? ==> (r.value.managementMethod.Some? <==> !Get(line, "managementMethodCode").Undefined?)
    ensures r.Ok? && r.value.managementMethod.Some? ==> r.value.managementMethod.value == Get(line, "managementMethodCode")
    ensures r.Ok? ==> (r.value.brInfo.Some? <==> HasDensity(line)) && r.value.br == HasDensity(line)
    ensures r.Ok? && r.value.brInfo.Some? ==>
      r.value.brInfo.value == BrInfo(Get(line, "density"), Get(line, "densityUnitOfMeasurement"))
    ensures r.Ok? ==> (r.value.additionalInfo.comments.Some? <==> LengthPositive(Get(line, "comments")) == Ok(true))
    ensures r.Ok? ==> (r.value.additionalInfo.handlingInstructions.Some? <==> !Get(line, "handlingInstructions").Undefined?)
    ensures r.Ok? ==>
      && r.value.dotHazardous == Get(line, "dotHazardous") && r.value.epaWaste == Get(line, "epaWaste")
      && r.value.lineNumber == Get(line, "lineNumber") && r.value.pcb == BaseWasteLine.pcb
      && r.value.quantity.containerNumber == ParseInt(Get(line, "containerNumber"))
      && r.value.quantity.quantity == ParseInt(Get(line, "quantity"))
      && r.value.quantity.containerType == Get(line, "containerType")
      && r.value.quantity.unitOfMeasurement == Get(line, "unitOfMeasurement")
    ensures r.Ok? && r.value.additionalInfo.comments.Some? ==> r.value.additionalInfo.comments.value == Get(line, "comments")
    ensures r.Ok? && r.value.additionalInfo.handlingInstructions.Some? ==>
      r.value.additionalInfo.handlingInstructions.value == Get(line, "handlingInstructions")
  {
    var p :- ReadParts(line);
    Ok(Assemble(line, p))
  }

  /** The template filled from the row, given what the throwing steps read. */
  function Assemble(line: Object, p: LineParts): (r: WasteLine)
    ensures r.dotInformation.Some? <==> DotHazardous(line)
    ensures r.wasteDescription.Some? <==> !DotHazardous(line)
    ensures DotHazardous(line) ==> r.dotInformation.value == DotInformation(Get(line, "description"), Get(line, "idNumber"))
    ensures !DotHazardous(line) ==> r.wasteDescription.value == Get(line, "description")
    ensures r.hazardousWaste.federalWasteCodes ==
      if p.federal.Some? then p.federal.value else BaseWasteLine.hazardousWaste.federalWasteCodes
    ensures r.hazardousWaste.generatorStateWasteCodes == p.generator
    ensures r.hazardousWaste.tsdfStateWasteCodes == p.tsdf
    ensures r.hazardousWaste.txWasteCodes == IfTruthy(Get(line, "txWasteCodes"))
    ensures r.managementMethod.Some? <==> !Get(line, "managementMethodCode").Undefined?
    ensures r.managementMethod.Some? ==> r.managementMethod.value == Get(line, "managementMethodCode")
    ensures (r.brInfo.Some? <==> HasDensity(line)) && r.br == HasDensity(line)
    ensures r.brInfo.Some? ==> r.brInfo.value == BrInfo(Get(line, "density"), Get(line, "densityUnitOfMeasurement"))
    ensures r.additionalInfo.comments.Some? <==> p.hasComments
    ensures r.additionalInfo.handlingInstructions.Some? <==> !Get(line, "handlingInstructions").Undefined?
    ensures && r.dotHazardous == Get(line, "dotHazardous") && r.epaWaste == Get(line, "epaWaste")
            && r.lineNumber == Get(line, "lineNumber") && r.pcb == BaseWasteLine.pcb
            && r.quantity.containerNumber == ParseInt(Get(line, "containerNumber"))
            && r.quantity.quantity == ParseInt(Get(line, "quantity"))
            && r.quantity.containerType == Get(line, "containerType")
            && r.quantity.unitOfMeasurement == Get(line, "unitOfMeasurement")
    ensures r.additionalInfo.comments.Some? ==> r.additionalInfo.comments.value == Get(line, "comments")
    ensures r.additionalInfo.handlingInstructions.Some? ==>
      r.additionalInfo.handlingInstructions.value == Get(line, "handlingInstructions")
  {
    var dot := DotHazardous(line);
    var description := Get(line, "description");
    var management := Get(line, "managementMethodCode");
    var base := BaseWasteLine;
    WasteLine(
      dotHazardous := Get(line, "dotHazardous"),
      epaWaste := Get(line, "epaWaste"),
      dotInformation := if dot then Some(DotInformation(description, Get(line, "idNumber"))) else None,
      wasteDescription := if dot then None else Some(description),
      quantity := Quantity(ParseInt(Get(line, "containerNumber")), Get(line, "containerType"),
                           ParseInt(Get(line, "quantity")), Get(line, "unitOfMeasurement")),
      br := HasDensity(line),
      hazardousWaste := HazardousWaste(
        if p.federal.Some? then p.federal.value else base.hazardousWaste.federalWasteCodes,
        p.generator, p.tsdf, IfTruthy(Get(line, "txWasteCodes"))),
      pcb := base.pcb,
      lineNumber := Get(line, "lineNumber"),
      managementMethod := if management.Undefined? then None else Some(management),
      additionalInfo := Additional(p.hasComments, Get(line, "comments"), Get(line, "handlingInstructions")),
      brInfo := if HasDensity(line) then Some(BrInfo(Get(line, "density"), Get(line, "densityUnitOfMeasurement"))) else None)
  }

  /** A line whose code fields and comments are all lists builds, and because an
      empty list is truthy, all three optional code lists stay in the line, each
      holding the cell's codes. */
  predicate KeepsAllCodes(line: Object) {
    var r := SetWasteLine(line);
    && r.Ok?
    && r.value.hazardousWaste.generatorStateWasteCodes.Some?
    && r.value.hazardousWaste.tsdfStateWasteCodes.Some?
    && r.value.hazardousWaste.txWasteCodes == Some(Get(line, "txWasteCodes"))
    && Unwrap(r.value.hazardousWaste.generatorStateWasteCodes.value) == Get(line, "generatorWasteCodes").items
    && Unwrap(r.value.hazardousWaste.tsdfStateWasteCodes.value) == Get(line, "tsdfWasteCodes").items
  }

  lemma ListsBuild(line: Object)
    requires Get(line, "federalWasteCodes").Arr? && Get(line, "generatorWasteCodes").Arr?
    requires Get(line, "tsdfWasteCodes").Arr? && Get(line, "txWasteCodes").Arr?
    requires Get(line, "comments").Arr?
    ensures KeepsAllCodes(line)
  {
    var federal, generator := Get(line, "federalWasteCodes"), Get(line, "generatorWasteCodes");
    var tsdf, tx := Get(line, "tsdfWasteCodes"), Get(line, "txWasteCodes");
    assert Truthy(generator) && Truthy(tsdf) && Truthy(tx);
    assert CodesBuildable(federal) && CodesBuildable(generator) && CodesBuildable(tsdf);
    assert IfTruthy(tx) == Some(tx);
    var r := SetWasteLine(line);
    assert r.Ok?;
    var h := r.value.hazardousWaste;
    assert h.generatorStateWasteCodes.Some? && h.tsdfStateWasteCodes.Some?;
  }

  /** Every processed waste row builds with all its code lists kept. */
  lemma ProcessedRowBuilds(row: SheetRow)
    ensures KeepsAllCodes(ProcessWasteRow(row).fields)
  {
    var parsed := ParseComments(Get(row.cells, "comments"));
    var line := ProcessWasteRow(row).fields;
    assert line == WasteFields(row.cells, CommentValues(parsed.results));
    CodeColumnMembers();
    ListsBuild(line);
  }

  // ---------------------------------------------------------------------------
  // Sequential building
  // ---------------------------------------------------------------------------

  /** A `for ... of` loop that awaits `f` on each element in turn and collects the
      results: the first element whose step throws ends the loop with that error. */
  function Sequentially<A, B>(xs: seq<A>, f: A -> Result<B, Thrown>): (r: Result<seq<B>, Thrown>)
    ensures r.Ok? <==> forall i :: 0 <= i < |xs| ==> f(xs[i]).Ok?
    ensures r.Ok? ==> |r.value| == |xs| && forall i :: 0 <= i < |xs| ==> r.value[i] == f(xs[i]).value
    ensures r.Err? ==> exists i :: 0 <= i < |xs| && f(xs[i]) == Err(r.error) && forall j :: 0 <= j < i ==> f(xs[j]).Ok?
    decreases |xs|
  {
    if |xs| == 0 then Ok([])
    else
      var y :- f(xs[0]);
      var ys :- Sequentially(xs[1..], f);
      Ok([y] + ys)
  }

  // ---------------------------------------------------------------------------
  // buildManifestAll
  // ---------------------------------------------------------------------------

  /** The submitted manifest. The handler roles come from the manifest's handler
      set; `imported` is the payload's `import` flag. The payload never holds a
      `manifestId`: it travels beside it. */
  datatype Payload = Payload(
    submissionType: Value,
    status: Value,
    generator: Object,
    transporters: seq<Object>,
    designatedFacility: Object,
    broker: Option<Object>,
    potentialShipDate: Option<Value>,
    wastes: seq<WasteLine>,
    additionalInfo: AdditionalInfo,
    imported: bool,
    containsPreviousRejectOrResidue: bool)

  /** `{ manifestId, payload }` */
  datatype ManifestPayload = ManifestPayload(manifestId: Value, payload: Payload)

  /** Spreading a missing handler set leaves no `generator`; deleting from it throws. */
  const NoHandlerSet: Thrown := TypeError("Cannot convert undefined or null to object")

  /** A manifest with no waste group has `undefined` wastes, which `for ... of` rejects. */
  const WastesNotIterable: Thrown := TypeError("wastes is not iterable")

  /** `delete o.rowNumber` */
  function DropRowNumber(o: Object): (r: Object)
    ensures "rowNumber" !in r
    ensures forall k :: k in o && k != "rowNumber" <==> k in r
    ensures forall k :: k in r ==> r[k] == o[k]
  {
    o - {"rowNumber"}
  }

  /** `{ number: phone }` */
  function EmergencyPhone(phone: Value): Value {
    Obj(map["number" := phone])
  }

  /** `potentialShipDate`, formatted when it is defined. */
  function ShipDate(date: Value, formatDate: Value -> Result<Value, Thrown>): (r: Result<Option<Value>, Thrown>)
    ensures date.Undefined? ==> r == Ok(None)
    ensures !date.Undefined? ==> r == (match formatDate(date) case Ok(d) => Ok(Some(d)) case Err(e) => Err(e))
  {
    if date.Undefined? then Ok(None)
    else
      var d :- formatDate(date);
      Ok(Some(d))
  }

  /** `buildManifestAll(info, manifestHandlers, wastes)`. The ship date is formatted
      by `formatDate`, which stands for the date arithmetic the source does. The
      steps that can throw, in order: a missing handler set, the date, a missing
      waste list, each waste line, and reading the comments' length. */
  function BuildManifestAll(info: Object, handlers: Option<HandlerSet>, wastes: Option<seq<Object>>,
                            formatDate: Value -> Result<Value, Thrown>): (r: Result<ManifestPayload, Thrown>)
    ensures handlers.None? ==> r == Err(NoHandlerSet)
    ensures handlers.Some? && wastes.None? && ShipDate(Get(info, "potentialShipDate"), formatDate).Ok? ==>
      r == Err(WastesNotIterable)
    ensures r.Ok? <==>
      && handlers.Some? && wastes.Some?
      && ShipDate(Get(info, "potentialShipDate"), formatDate).Ok?
      && (forall i :: 0 <= i < |wastes.value| ==> SetWasteLine(wastes.value[i]).Ok?)
      && !Get(info, "comments").Undefined? && !Get(info, "comments").Null?
    ensures r.Ok? ==> r.value.manifestId == Get(info, "manifestId")
    ensures r.Ok? ==> var p := r.value.payload;
      && p.submissionType == Get(info, "submissionType") && p.status == Get(info, "status")
      && !p.imported && !p.containsPreviousRejectOrResidue
    ensures r.Ok? ==> && |r.value.payload.wastes| == |wastes.value|
                      && forall i :: 0 <= i < |wastes.value| ==> r.value.payload.wastes[i] == SetWasteLine(wastes.value[i]).value
    ensures r.Ok? ==> ShippedFrom(r.value.payload, handlers.value, Get(info, "emergencyResponsePhone"))
    ensures r.Ok? ==> (r.value.payload.potentialShipDate.Some? <==> !Get(info, "potentialShipDate").Undefined?)
    ensures r.Ok? && r.value.payload.potentialShipDate.Some? ==>
      formatDate(Get(info, "potentialShipDate")) == Ok(r.value.payload.potentialShipDate.value)
    ensures r.Ok? ==> var extra := r.value.payload.additionalInfo;
      && (extra.comments.Some? <==> LengthPositive(Get(info, "comments")) == Ok(true))
      && (extra.comments.Some? ==> extra.comments.value == Get(info, "comments"))
      && (extra.handlingInstructions.Some? <==> !Get(info, "handlingInstructions").Undefined?)
  {
    if handlers.None? then Err(NoHandlerSet)
    else
      var hs := handlers.value;
      var shipDate :- ShipDate(Get(info, "potentialShipDate"), formatDate);
      var lines :- if wastes.None? then Err(WastesNotIterable) else Sequentially(wastes.value, SetWasteLine);
      var hasComments :- LengthPositive(Get(info, "comments"));
      Ok(ManifestPayload(Get(info, "manifestId"), PayloadOf(info, hs, shipDate, lines, hasComments)))
  }

  /** The error of each throwing step after the handler lookup: the date
      formatter's, the first failing waste line's, and the `comments.length` read's. */
  lemma BuildManifestAllErrors(info: Object, handlers: Option<HandlerSet>, wastes: Option<seq<Object>>,
                               formatDate: Value -> Result<Value, Thrown>)
    ensures var r := BuildManifestAll(info, handlers, wastes, formatDate);
      var date := ShipDate(Get(info, "potentialShipDate"), formatDate);
      && (handlers.Some? && date.Err? ==> r == Err(date.error))
      && (handlers.Some? && wastes.Some? && date.Ok? && Sequentially(wastes.value, SetWasteLine).Err? ==>
            r == Err(Sequentially(wastes.value, SetWasteLine).error))
      && (handlers.Some? && wastes.Some? && date.Ok? && Sequentially(wastes.value, SetWasteLine).Ok?
          && (Get(info, "comments").Undefined? || Get(info, "comments").Null?) ==>
            r == Err(ReadOfNothing(Get(info, "comments"), "length")))
  {
  }

  /** The payload once every throwing step has passed. */
  function PayloadOf(info: Object, hs: HandlerSet, shipDate: Option<Value>, lines: seq<WasteLine>, hasComments: bool): (p: Payload)
    ensures ShippedFrom(p, hs, Get(info, "emergencyResponsePhone"))
    ensures p.submissionType == Get(info, "submissionType") && p.status == Get(info, "status")
    ensures !p.imported && !p.containsPreviousRejectOrResidue
    ensures p.potentialShipDate == shipDate && p.wastes == lines
    ensures p.additionalInfo.comments.Some? <==> hasComments
    ensures p.additionalInfo.comments.Some? ==> p.additionalInfo.comments.value == Get(info, "comments")
    ensures p.additionalInfo.handlingInstructions.Some? <==> !Get(info, "handlingInstructions").Undefined?
  {
    var generator := DropRowNumber(hs.generator)["emergencyPhone" := EmergencyPhone(Get(info, "emergencyResponsePhone"))];
    var transporters := seq(|hs.transporters|, i requires 0 <= i < |hs.transporters| => DropRowNumber(hs.transporters[i]));
    var broker := if hs.broker.Some? then Some(DropRowNumber(hs.broker.value)) else None;
    Payload(
      Get(info, "submissionType"), Get(info, "status"),
      generator, transporters, DropRowNumber(hs.designatedFacility), broker,
      shipDate, lines,
      Additional(hasComments, Get(info, "comments"), Get(info, "handlingInstructions")),
      false, false)
  }

  /** The payload's handler roles are the handler set's with `rowNumber` removed,
      and the generator additionally carries the emergency phone. */
  predicate ShippedFrom(p: Payload, hs: HandlerSet, phone: Value) {
    && "rowNumber" !in p.generator
    && Get(p.generator, "emergencyPhone") == EmergencyPhone(phone)
    && (forall k :: k in hs.generator && k != "rowNumber" ==> k in p.generator)
    && (forall k :: k in p.generator && k != "emergencyPhone" ==> k in hs.generator && p.generator[k] == hs.generator[k])
    && p.designatedFacility == hs.designatedFacility - {"rowNumber"}
    && |p.transporters| == |hs.transporters|
    && (forall i :: 0 <= i < |p.transporters| ==> p.transporters[i] == hs.transporters[i] - {"rowNumber"})
    && (p.broker.Some? <==> hs.broker.Some?)
    && (p.broker.Some? ==> p.broker.value == hs.broker.value - {"rowNumber"})
  }

  /** When the handler set came out of the handler grouping, whose roles hold no
      `rowNumber`, the payload carries the roles unchanged. */
  lemma CleanRolesUnchanged(p: Payload, hs: HandlerSet, phone: Value)
    requires ShippedFrom(p, hs, phone)
    requires Clean(hs.designatedFacility) && AllClean(hs.transporters)
    requires hs.broker.Some? ==> Clean(hs.broker.value)
    ensures p.designatedFacility == hs.designatedFacility
    ensures p.transporters == hs.transporters
    ensures p.broker == hs.broker
  {
    assert hs.designatedFacility - {"rowNumber"} == hs.designatedFacility;
    forall i | 0 <= i < |p.transporters| ensures p.transporters[i] == hs.transporters[i] {
      assert Clean(hs.transporters[i]);
      assert hs.transporters[i] - {"rowNumber"} == hs.transporters[i];
    }
    if hs.broker.Some? {
      assert hs.broker.value - {"rowNumber"} == hs.broker.value;
    }
  }

  // ---------------------------------------------------------------------------
  // buildBulkManifests
  // ---------------------------------------------------------------------------

  /** `handlers.find(h => h.manifestId == manifestId)`: the first handler set whose
      manifestId loosely equals the row's. */
  function FindHandlers(handlers: seq<HandlerSet>, id: Value): (r: Option<HandlerSet>)
    ensures r.None? <==> forall i :: 0 <= i < |handlers| ==> !LooseEqualsString(handlers[i].manifestId, id)
    ensures r.Some? ==>
      exists i ::
        && 0 <= i < |handlers| && handlers[i] == r.value
        && LooseEqualsString(handlers[i].manifestId, id)
        && forall j :: 0 <= j < i ==> !LooseEqualsString(handlers[j].manifestId, id)
    decreases |handlers|
  {
    if |handlers| == 0 then None
    else if LooseEqualsString(handlers[0].manifestId, id) then Some(handlers[0])
    else
      var r := FindHandlers(handlers[1..], id);
      if r.Some? then
        ghost var i :| 0 <= i < |handlers[1..]| && handlers[1..][i] == r.value
          && LooseEqualsString(handlers[1..][i].manifestId, id)
          && forall j :: 0 <= j < i ==> !LooseEqualsString(handlers[1..][j].manifestId, id);
        assert handlers[i + 1] == r.value;
        r
      else r
  }

  /** `wastes[manifestId]`: the waste rows grouped under the property key the
      row's manifestId converts to, or `undefined` when there is no such group. */
  function WasteGroup(wastes: seq<Group<Object>>, id: Value): (r: Option<seq<Object>>)
    ensures r.Some? <==> ToStr(id) in Keys(wastes)
    ensures r.Some? ==> exists i :: 0 <= i < |wastes| && wastes[i].key == ToStr(id) && wastes[i].items == r.value
  {
    match FindKey(wastes, ToStr(id))
    case Some(i) => Some(wastes[i].items)
    case None => None
  }

  /** One manifest row's payload, with its handler set and waste group looked up:
      no handler set with a loosely equal manifestId makes it throw, and a payload
      that builds is named by the row, ships from a handler set whose manifestId
      matches, and has one line per row of the group keyed by the row's id. */
  function ManifestFor(item: Object, handlers: seq<HandlerSet>, wastes: seq<Group<Object>>,
                       formatDate: Value -> Result<Value, Thrown>): (r: Result<ManifestPayload, Thrown>)
    ensures (forall i :: 0 <= i < |handlers| ==> !LooseEqualsString(handlers[i].manifestId, Get(item, "manifestId"))) ==>
      r == Err(NoHandlerSet)
    ensures r.Ok? ==> ToStr(Get(item, "manifestId")) in Keys(wastes)
    ensures r.Ok? ==> r.value.manifestId == Get(item, "manifestId")
    ensures r.Ok? ==> exists i ::
      && 0 <= i < |handlers| && LooseEqualsString(handlers[i].manifestId, Get(item, "manifestId"))
      && ShippedFrom(r.value.payload, handlers[i], Get(item, "emergencyResponsePhone"))
    ensures r.Ok? ==> exists g ::
      && 0 <= g < |wastes| && wastes[g].key == ToStr(Get(item, "manifestId"))
      && |r.value.payload.wastes| == |wastes[g].items|
  {
    var id := Get(item, "manifestId");
    var found, group := FindHandlers(handlers, id), WasteGroup(wastes, id);
    var r := BuildManifestAll(item, found, group, formatDate);
    assert r.Ok? ==> found.Some? && group.Some?;
    r
  }

  /** `buildBulkManifests(info, handlers, wastes)`: one payload per manifest row, in
      the rows' order, each named by its row's manifestId; the first row whose
      payload cannot be built ends it with that row's error. */
  function BuildBulkManifests(info: seq<Object>, handlers: seq<HandlerSet>, wastes: seq<Group<Object>>,
                              formatDate: Value -> Result<Value, Thrown>): (r: Result<seq<ManifestPayload>, Thrown>)
    ensures r.Ok? <==> forall i :: 0 <= i < |info| ==> ManifestFor(info[i], handlers, wastes, formatDate).Ok?
    ensures r.Ok? ==> |r.value| == |info|
    ensures r.Ok? ==> forall i :: 0 <= i < |info| ==>
      r.value[i] == ManifestFor(info[i], handlers, wastes, formatDate).value
      && r.value[i].manifestId == Get(info[i], "manifestId")
    ensures r.Err? ==>
      exists i ::
        && 0 <= i < |info|
        && ManifestFor(info[i], handlers, wastes, formatDate) == Err(r.error)
        && forall j :: 0 <= j < i ==> ManifestFor(info[j], handlers, wastes, formatDate).Ok?
  {
    Sequentially(info, item => ManifestFor(item, handlers, wastes, formatDate))
  }

  /** A manifest row whose manifestId matches no handler set, once every earlier
      row has built, ends the build with the missing-handler-set error. */
  lemma MissingHandlersFail(info: seq<Object>, handlers: seq<HandlerSet>, wastes: seq<Group<Object>>,
                            formatDate: Value -> Result<Value, Thrown>, i: nat)
    requires i < |info|
    requires forall h :: 0 <= h < |handlers| ==> !LooseEqualsString(handlers[h].manifestId, Get(info[i], "manifestId"))
    requires forall j :: 0 <= j < i ==> ManifestFor(info[j], handlers, wastes, formatDate).Ok?
    ensures BuildBulkManifests(info, handlers, wastes, formatDate) == Err(NoHandlerSet)
  {
    assert ManifestFor(info[i], handlers, wastes, formatDate) == Err(NoHandlerSet);
    var r := BuildBulkManifests(info, handlers, wastes, formatDate);
    assert r.Err?;
    var k :| 0 <= k < |info| && ManifestFor(info[k], handlers, wastes, formatDate) == Err(r.error)
      && forall j :: 0 <= j < k ==> ManifestFor(info[j], handlers, wastes, formatDate).Ok?;
    assert k == i;
  }

  /** Likewise a manifest row with handlers but no waste rows, whose ship date
      formats, ends the build: its waste list is `undefined`. */
  lemma MissingWastesFail(info: seq<Object>, handlers: seq<HandlerSet>, wastes: seq<Group<Object>>,
                          formatDate: Value -> Result<Value, Thrown>, i: nat)
    requires i < |info|
    requires FindHandlers(handlers, Get(info[i], "manifestId")).Some?
    requires ToStr(Get(info[i], "manifestId")) !in Keys(wastes)
    requires ShipDate(Get(info[i], "potentialShipDate"), formatDate).Ok?
    requires forall j :: 0 <= j < i ==> ManifestFor(info[j], handlers, wastes, formatDate).Ok?
    ensures BuildBulkManifests(info, handlers, wastes, formatDate) == Err(WastesNotIterable)
  {
    assert ManifestFor(info[i], handlers, wastes, formatDate) == Err(WastesNotIterable);
    var r := BuildBulkManifests(info, handlers, wastes, formatDate);
    assert r.Err?;
    var k :| 0 <= k < |info| && ManifestFor(info[k], handlers, wastes, formatDate) == Err(r.error)
      && forall j :: 0 <= j < k ==> ManifestFor(info[j], handlers, wastes, formatDate).Ok?;
    assert k == i;
  }
}
