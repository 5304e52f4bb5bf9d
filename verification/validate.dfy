/** Validation of the three sheets and of the assembled handler sets. JSON Schema
    validation is a parameter: a `Validator` returns the error objects Ajv leaves in
    `validate.errors` for a row, none when the row is valid. Everything the module
    adds around the schemas is modelled: the duplicate-id check, the referential
    checks against the manifest tab, the handler-type counts, and the reshaping of
    Ajv's errors into `{ field, message }` pairs. */
module Validate {
  import opened Wrappers
  import opened Strings
  import opened Json
  import opened Errors
  import opened Utils
  import opened Process

  /** One Ajv error object: `{ keyword, instancePath, params, message }`. */
  datatype SchemaFailure = SchemaFailure(keyword: string, instancePath: string, params: Object, message: string)

  /** A compiled schema: `validate(row)` is true exactly when the list is empty. */
  type Validator = Object -> seq<SchemaFailure>

  // ---------------------------------------------------------------------------
  // processSchemaErrors
  // ---------------------------------------------------------------------------

  /** The columns whose length errors are reworded as a hint about the `|` separator. */
  const WasteCodeProperties: seq<string> :=
    ["federalWasteCodes", "generatorWasteCodes", "tsdfWasteCodes", "txWasteCodes"]

  /** `instancePath.split('/')[1] || ''`: the top-level property an error is about. */
  function PropertyName(instancePath: string): (r: string)
    ensures '/' !in r
  {
    var parts := Split(instancePath, '/');
    if |parts| > 1 then parts[1] else ""
  }

  /** An instance path `/p0/p1/...` names its first segment as the property, and the
      empty path (the row itself) names none. */
  lemma PropertyNameOfPath(segments: seq<string>)
    requires |segments| > 0
    requires forall i :: 0 <= i < |segments| ==> '/' !in segments[i]
    ensures PropertyName(Join([""] + segments, '/')) == segments[0]
    ensures PropertyName("") == ""
  {
    var parts := [""] + segments;
    forall i | 0 <= i < |parts| ensures '/' !in parts[i] {
      if i > 0 {
        assert parts[i] == segments[i - 1];
      }
    }
    SplitJoin(parts, '/');
    SplitNoSeparator("", '/');
  }

  function AdditionalPropertyMessage(column: Value): string {
    "column '" + ToStr(column) + "' is not allowed"
  }

  function WasteCodeLengthMessage(message: string): string {
    "each code " + message + ". make sure codes are split by '|' character"
  }

  predicate IsWasteCodeLength(err: SchemaFailure) {
    && (err.keyword == "minLength" || err.keyword == "maxLength")
    && PropertyName(err.instancePath) in WasteCodeProperties
  }

  /** One Ajv error as a `{ field, message }` pair. An unexpected column names the
      column; a length error on a waste-code column gets the separator hint; any
      other error names its top-level property, or the missing property when the
      error is about the row itself, and keeps Ajv's message. */
  function SchemaError(err: SchemaFailure): (r: FieldError)
    ensures err.keyword == "additionalProperties" ==>
      r == FieldError(Get(err.params, "additionalProperty"),
                      AdditionalPropertyMessage(Get(err.params, "additionalProperty")))
    ensures err.keyword != "additionalProperties" && IsWasteCodeLength(err) ==>
      r.field == Str(PropertyName(err.instancePath)) && r.message == WasteCodeLengthMessage(err.message)
    ensures err.keyword != "additionalProperties" && !IsWasteCodeLength(err) ==>
      r.message == err.message
    ensures err.keyword != "additionalProperties" && !IsWasteCodeLength(err) ==>
      r.field == (if PropertyName(err.instancePath) != "" then Str(PropertyName(err.instancePath))
                  else Get(err.params, "missingProperty"))
  {
    var name := PropertyName(err.instancePath);
    if err.keyword == "additionalProperties" then
      var column := Get(err.params, "additionalProperty");
      FieldError(column, AdditionalPropertyMessage(column))
    else if IsWasteCodeLength(err) then
      FieldError(Str(name), WasteCodeLengthMessage(err.message))
    else
      FieldError(if name != "" then Str(name) else Get(err.params, "missingProperty"), err.message)
  }

  /** `processSchemaErrors(errors)`: one pair per Ajv error, in Ajv's order. */
  function ProcessSchemaErrors(errs: seq<SchemaFailure>): (r: seq<FieldError>)
    ensures |r| == |errs|
    ensures forall i :: 0 <= i < |errs| ==> r[i] == SchemaError(errs[i])
  {
    seq(|errs|, i requires 0 <= i < |errs| => SchemaError(errs[i]))
  }

  /** An error about a waste-code column at any depth under it keeps the column
      name and gets the separator hint; the same keyword on any other column keeps
      Ajv's message. */
  lemma WasteCodeHint(keyword: string, column: string, rest: seq<string>, params: Object, message: string)
    requires keyword == "minLength" || keyword == "maxLength"
    requires '/' !in column
    requires forall i :: 0 <= i < |rest| ==> '/' !in rest[i]
    ensures var err := SchemaFailure(keyword, Join(["", column] + rest, '/'), params, message);
      && (column in WasteCodeProperties ==>
            SchemaError(err) == FieldError(Str(column), WasteCodeLengthMessage(message)))
      && (column !in WasteCodeProperties && column != "" ==>
            SchemaError(err) == FieldError(Str(column), message))
  {
    var err := SchemaFailure(keyword, Join(["", column] + rest, '/'), params, message);
    assert |keyword| != |"additionalProperties"|;
    PathColumn(column, rest);
    assert PropertyName(err.instancePath) == column;
    assert IsWasteCodeLength(err) <==> column in WasteCodeProperties;
  }

  lemma PathColumn(column: string, rest: seq<string>)
    requires '/' !in column
    requires forall i :: 0 <= i < |rest| ==> '/' !in rest[i]
    ensures PropertyName(Join(["", column] + rest, '/')) == column
  {
    var segments := [column] + rest;
    assert ["", column] + rest == [""] + segments;
    forall i | 0 <= i < |segments| ensures '/' !in segments[i] {
      if i > 0 {
        assert segments[i] == rest[i - 1];
      }
    }
    PropertyNameOfPath(segments);
  }

  // ---------------------------------------------------------------------------
  // Row reports
  // ---------------------------------------------------------------------------

  /** The row number of a `{ row, errors }` entry, 0 for any other entry. */
  function RowNumber(e: ErrorEntry): int {
    if e.RowEntry? && e.row.Num? then e.row.n else 0
  }

  /** `e` reports the errors `check` finds on one of `rows`, numbered from 1. */
  ghost predicate Reports(rows: seq<Object>, check: Object -> seq<FieldError>, e: ErrorEntry) {
    && e.RowEntry? && e.row.Num? && 1 <= e.row.n <= |rows|
    && |e.errors| > 0 && e.errors == check(rows[e.row.n - 1])
  }

  /** `rows.forEach((row, index) => { ...; if (errors.length > 0) results.push({ row:
      index + 1, errors }) })`: one entry per row with errors, in row order, and
      nothing for a clean row. */
  function RowReports(rows: seq<Object>, check: Object -> seq<FieldError>): (r: seq<ErrorEntry>)
    ensures forall k :: 0 <= k < |r| ==> Reports(rows, check, r[k])
    ensures forall k, l :: 0 <= k < l < |r| ==> RowNumber(r[k]) < RowNumber(r[l])
    ensures forall i :: 0 <= i < |rows| && |check(rows[i])| > 0 ==> RowEntry(Num(i + 1), check(rows[i])) in r
    ensures |r| == 0 <==> forall i :: 0 <= i < |rows| ==> |check(rows[i])| == 0
    decreases |rows|
  {
    if |rows| == 0 then []
    else
      var acc := RowReports(rows[..|rows| - 1], check);
      var errs := check(rows[|rows| - 1]);
      var last := if |errs| > 0 then [RowEntry(Num(|rows|), errs)] else [];
      var prefix := rows[..|rows| - 1];
      assert forall i :: 0 <= i < |prefix| ==> prefix[i] == rows[i];
      StepReports(rows, check, acc, last);
      StepMembers(rows, check, acc, last);
      acc + last
  }

  /** A row's report, if any, goes after those of the rows before it. */
  lemma StepReports(rows: seq<Object>, check: Object -> seq<FieldError>, acc: seq<ErrorEntry>, last: seq<ErrorEntry>)
    requires |rows| > 0
    requires forall k :: 0 <= k < |acc| ==> Reports(rows[..|rows| - 1], check, acc[k])
    requires forall k, l :: 0 <= k < l < |acc| ==> RowNumber(acc[k]) < RowNumber(acc[l])
    requires last == [] || last == [RowEntry(Num(|rows|), check(rows[|rows| - 1]))]
    requires last != [] ==> |check(rows[|rows| - 1])| > 0
    ensures forall k :: 0 <= k < |acc + last| ==> Reports(rows, check, (acc + last)[k])
    ensures forall k, l :: 0 <= k < l < |acc + last| ==> RowNumber((acc + last)[k]) < RowNumber((acc + last)[l])
  {
    var prefix := rows[..|rows| - 1];
    var r := acc + last;
    forall k | 0 <= k < |acc| ensures Reports(rows, check, acc[k]) && RowNumber(acc[k]) < |rows| {
      assert prefix[acc[k].row.n - 1] == rows[acc[k].row.n - 1];
    }
    forall k | 0 <= k < |r| ensures Reports(rows, check, r[k]) {
      if k >= |acc| {
        assert r[k] == last[0];
      } else {
        assert r[k] == acc[k];
      }
    }
    forall k, l | 0 <= k < l < |r| ensures RowNumber(r[k]) < RowNumber(r[l]) {
      assert r[k] == acc[k];
      if l >= |acc| {
        assert r[l] == last[0];
      } else {
        assert r[l] == acc[l];
      }
    }
  }

  /** Every row with errors has its report among the reports, and there are none
      exactly when no row has errors. */
  lemma StepMembers(rows: seq<Object>, check: Object -> seq<FieldError>, acc: seq<ErrorEntry>, last: seq<ErrorEntry>)
    requires |rows| > 0
    requires var prefix := rows[..|rows| - 1];
      && (forall i :: 0 <= i < |prefix| && |check(prefix[i])| > 0 ==> RowEntry(Num(i + 1), check(prefix[i])) in acc)
      && (|acc| == 0 <==> forall i :: 0 <= i < |prefix| ==> |check(prefix[i])| == 0)
    requires var errs := check(rows[|rows| - 1]);
      last == if |errs| > 0 then [RowEntry(Num(|rows|), errs)] else []
    ensures forall i :: 0 <= i < |rows| && |check(rows[i])| > 0 ==> RowEntry(Num(i + 1), check(rows[i])) in acc + last
    ensures |acc + last| == 0 <==> forall i :: 0 <= i < |rows| ==> |check(rows[i])| == 0
  {
    var prefix := rows[..|rows| - 1];
    var r := acc + last;
    forall i | 0 <= i < |rows| && |check(rows[i])| > 0 ensures RowEntry(Num(i + 1), check(rows[i])) in r {
      if i < |prefix| {
        assert prefix[i] == rows[i];
      } else {
        assert r[|r| - 1] == last[0];
      }
    }
    if |r| == 0 {
      forall i | 0 <= i < |rows| ensures |check(rows[i])| == 0 {
        if i < |prefix| {
          assert prefix[i] == rows[i];
        }
      }
    }
  }

  // ---------------------------------------------------------------------------
  // validateManifestInfo
  // ---------------------------------------------------------------------------

  function IdKey(): Object -> string {
    PropertyKey("manifestId")
  }

  /** `buildManifestIdFrequencyMap(manifests)`: how many rows carry each
      `String(manifestId)`. */
  function FrequencyMap(ms: seq<Object>): (freq: map<string, nat>)
    ensures freq.Keys == KeySet(ms, IdKey())
    ensures forall k :: k in freq ==> freq[k] == |Filter(ms, IdKey(), k)|
    decreases |ms|
  {
    if |ms| == 0 then map[]
    else
      var prefix := ms[..|ms| - 1];
      var freq := FrequencyMap(prefix);
      var id := IdKey()(ms[|ms| - 1]);
      KeySetSnoc(ms, IdKey());
      if id !in freq then FilterAbsent(prefix, IdKey(), id); freq[id := 1]
      else freq[id := freq[id] + 1]
  }

  /** Sum of the counts of the groups' keys. */
  function CountSum(freq: map<string, nat>, gs: seq<Group<Object>>): nat
    requires forall i :: 0 <= i < |gs| ==> gs[i].key in freq
  {
    if |gs| == 0 then 0 else CountSum(freq, gs[..|gs| - 1]) + freq[gs[|gs| - 1].key]
  }

  lemma {:induction false} CountSumIsSize(freq: map<string, nat>, gs: seq<Group<Object>>)
    requires forall i :: 0 <= i < |gs| ==> gs[i].key in freq && freq[gs[i].key] == |gs[i].items|
    ensures CountSum(freq, gs) == TotalSize(gs)
    decreases |gs|
  {
    if |gs| > 0 {
      CountSumIsSize(freq, gs[..|gs| - 1]);
    }
  }

  /** Every id is counted once per row: over the distinct ids, the counts add up to
      the number of rows. */
  lemma FrequencyTotal(ms: seq<Object>)
    ensures var freq := FrequencyMap(ms);
      var gs := GroupByKey(ms, "manifestId");
      && Keys(gs) == freq.Keys
      && (forall i :: 0 <= i < |gs| ==> gs[i].key in freq)
      && CountSum(freq, gs) == |ms|
  {
    var freq := FrequencyMap(ms);
    var gs := GroupByKey(ms, "manifestId");
    assert forall i :: 0 <= i < |gs| ==> gs[i].key in Keys(gs);
    CountSumIsSize(freq, gs);
    GroupBySize(ms, IdKey());
  }

  lemma {:induction false} FilterAtLeastTwo(items: seq<Object>, keyOf: Object -> string, m: nat, n: nat)
    requires m < n < |items| && keyOf(items[m]) == keyOf(items[n])
    ensures |Filter(items, keyOf, keyOf(items[n]))| >= 2
    decreases |items|
  {
    var prefix := items[..|items| - 1];
    if n == |items| - 1 {
      assert prefix[m] == items[m];
      FilterHas(prefix, keyOf, m);
    } else {
      assert prefix[m] == items[m] && prefix[n] == items[n];
      FilterAtLeastTwo(prefix, keyOf, m, n);
    }
  }

  lemma {:induction false} FilterOther(items: seq<Object>, keyOf: Object -> string, n: nat)
    requires n < |items| && |Filter(items, keyOf, keyOf(items[n]))| > 1
    ensures exists m :: 0 <= m < |items| && m != n && keyOf(items[m]) == keyOf(items[n])
    decreases |items|
  {
    var prefix := items[..|items| - 1];
    var k := keyOf(items[n]);
    if n == |items| - 1 {
      if k !in KeySet(prefix, keyOf) {
        FilterAbsent(prefix, keyOf, k);
        assert false;
      }
      var m :| 0 <= m < |prefix| && keyOf(prefix[m]) == k;
      assert prefix[m] == items[m];
    } else if keyOf(items[|items| - 1]) != k {
      assert prefix[n] == items[n];
      FilterOther(prefix, keyOf, n);
      var m :| 0 <= m < |prefix| && m != n && keyOf(prefix[m]) == k;
      assert prefix[m] == items[m];
    }
  }

  /** Another row carries the same `String(manifestId)`. */
  ghost predicate SharesId(ms: seq<Object>, n: nat)
    requires n < |ms|
  {
    exists m :: 0 <= m < |ms| && m != n && IdKey()(ms[m]) == IdKey()(ms[n])
  }

  /** `freqMap[row.manifestId] > 1` exactly when another row has the same id. */
  lemma DuplicateIff(ms: seq<Object>, n: nat)
    requires n < |ms|
    ensures var k := IdKey()(ms[n]);
      k in FrequencyMap(ms) && (FrequencyMap(ms)[k] > 1 <==> SharesId(ms, n))
  {
    var k := IdKey()(ms[n]);
    assert k in KeySet(ms, IdKey());
    if SharesId(ms, n) {
      var m :| 0 <= m < |ms| && m != n && IdKey()(ms[m]) == k;
      if m < n {
        FilterAtLeastTwo(ms, IdKey(), m, n);
      } else {
        FilterAtLeastTwo(ms, IdKey(), n, m);
      }
    }
    if FrequencyMap(ms)[k] > 1 {
      FilterOther(ms, IdKey(), n);
    }
  }

  function DuplicateError(id: Value): FieldError {
    FieldError(Str("manifestId"), "manifestId " + ToStr(id) + " is duplicated")
  }

  /** The errors of one manifest row: the schema's, then the duplicate-id error. */
  function ManifestCheck(schema: Validator, freq: map<string, nat>): Object -> seq<FieldError> {
    row =>
      var key := ToStr(Get(row, "manifestId"));
      ProcessSchemaErrors(schema(row))
        + (if key in freq && freq[key] > 1 then [DuplicateError(Get(row, "manifestId"))] else [])
  }

  /** `validateManifestInfo(manifests)` */
  function ValidateManifestInfo(ms: seq<Object>, schema: Validator): (r: seq<ErrorEntry>)
    ensures forall k :: 0 <= k < |r| ==> Reports(ms, ManifestCheck(schema, FrequencyMap(ms)), r[k])
    ensures forall k, l :: 0 <= k < l < |r| ==> RowNumber(r[k]) < RowNumber(r[l])
  {
    RowReports(ms, ManifestCheck(schema, FrequencyMap(ms)))
  }

  /** A manifest row's errors are its schema errors followed by the duplicate error
      exactly when another row shares its id. */
  lemma ManifestRowErrors(ms: seq<Object>, schema: Validator, n: nat)
    requires n < |ms|
    ensures var errs := ManifestCheck(schema, FrequencyMap(ms))(ms[n]);
      var schemaErrs := schema(ms[n]);
      && |errs| == |schemaErrs| + (if SharesId(ms, n) then 1 else 0)
      && (forall i :: 0 <= i < |schemaErrs| ==> errs[i] == SchemaError(schemaErrs[i]))
      && (SharesId(ms, n) ==> errs[|errs| - 1] == DuplicateError(Get(ms[n], "manifestId")))
  {
    DuplicateIff(ms, n);
  }

  /** The manifest tab passes exactly when every row satisfies the schema and no
      two rows share an id. */
  lemma ManifestInfoClean(ms: seq<Object>, schema: Validator)
    ensures ValidateManifestInfo(ms, schema) == [] <==>
      forall n :: 0 <= n < |ms| ==> schema(ms[n]) == [] && !SharesId(ms, n)
  {
    var check := ManifestCheck(schema, FrequencyMap(ms));
    forall n | 0 <= n < |ms| ensures |check(ms[n])| == 0 <==> schema(ms[n]) == [] && !SharesId(ms, n) {
      ManifestRowErrors(ms, schema, n);
    }
  }

  // ---------------------------------------------------------------------------
  // getManifestIds, validateManifestIds
  // ---------------------------------------------------------------------------

  predicate Distinct(vs: seq<Value>) {
    forall i, j :: 0 <= i < j < |vs| ==> vs[i] != vs[j]
  }

  /** The numeric `manifestId`s of the manifest rows. */
  function NumericIds(ms: seq<Object>): set<Value> {
    set n | 0 <= n < |ms| && IsNumber(Get(ms[n], "manifestId")) :: Get(ms[n], "manifestId")
  }

  /** `getManifestIds(manifests)`: the set of numeric ids, in first-appearance order.
      A text id, even one that reads as a number, is not a valid id. */
  function GetManifestIds(ms: seq<Object>): (r: seq<Value>)
    ensures Distinct(r)
    ensures forall k :: 0 <= k < |r| ==> IsNumber(r[k])
    ensures forall v :: v in r <==> v in NumericIds(ms)
    decreases |ms|
  {
    if |ms| == 0 then []
    else
      var prefix := ms[..|ms| - 1];
      var ids := GetManifestIds(prefix);
      var id := Get(ms[|ms| - 1], "manifestId");
      assert NumericIds(ms) == NumericIds(prefix) + (if IsNumber(id) then {id} else {}) by {
        assert forall n :: 0 <= n < |prefix| ==> prefix[n] == ms[n];
      }
      if IsNumber(id) && id !in ids then ids + [id] else ids
  }

  /** The `manifestId` values of a tab's rows. */
  function TabIds(tab: seq<Object>): set<Value> {
    set n | 0 <= n < |tab| :: Get(tab[n], "manifestId")
  }

  /** `validateManifestIds(manifestIds, tabData)`: the ids no row of the tab
      carries, in the ids' order. */
  function ValidateManifestIds(ids: seq<Value>, tab: seq<Object>): (r: seq<Value>)
    ensures forall v :: v in r <==> v in ids && v !in TabIds(tab)
    ensures |r| <= |ids|
    ensures Distinct(ids) ==> Distinct(r)
    decreases |ids|
  {
    if |ids| == 0 then []
    else
      var rest := ValidateManifestIds(ids[..|ids| - 1], tab);
      var id := ids[|ids| - 1];
      assert forall v :: v in ids <==> v in ids[..|ids| - 1] || v == id;
      rest + (if id in TabIds(tab) then [] else [id])
  }

  /** One id's share of the missing ids: itself when no row of the tab carries it. */
  function MissingId(id: Value, tab: seq<Object>): seq<Value> {
    if id in TabIds(tab) then [] else [id]
  }

  /** The last id's verdict comes after the others'. */
  lemma MissingIdsStep(ids: seq<Value>, tab: seq<Object>)
    requires |ids| > 0
    ensures ValidateManifestIds(ids, tab) == ValidateManifestIds(ids[..|ids| - 1], tab) + MissingId(ids[|ids| - 1], tab)
  {
  }

  /** Filtering an earlier list of ids and then a later one gives the two results
      one after the other. */
  lemma {:induction false} MissingIdsAppend(a: seq<Value>, b: seq<Value>, tab: seq<Object>)
    ensures ValidateManifestIds(a + b, tab) == ValidateManifestIds(a, tab) + ValidateManifestIds(b, tab)
    decreases |b|
  {
    if |b| == 0 {
      assert a + b == a;
    } else {
      var front, last := b[..|b| - 1], b[|b| - 1];
      assert (a + b)[..|a + b| - 1] == a + front;
      assert (a + b)[|a + b| - 1] == last;
      MissingIdsStep(a + b, tab);
      MissingIdsAppend(a, front, tab);
      MissingIdsStep(b, tab);
      ConcatAssociates(ValidateManifestIds(a, tab), ValidateManifestIds(front, tab), MissingId(last, tab));
    }
  }

  /** The missing ids are a filter of the valid ids taken from the first to the
      last: the notes follow the ids' order. */
  lemma {:induction false} MissingIdsInOrder(ids: seq<Value>, tab: seq<Object>)
    ensures |ids| > 0 ==>
      ValidateManifestIds(ids, tab) == MissingId(ids[0], tab) + ValidateManifestIds(ids[1..], tab)
    ensures ValidateManifestIds([], tab) == []
  {
    if |ids| > 0 {
      MissingIdsAppend([ids[0]], ids[1..], tab);
      assert [ids[0]] + ids[1..] == ids;
      MissingIdsOne(ids[0], tab);
    }
  }

  /** A single id is missing exactly when no row carries it. */
  lemma MissingIdsOne(id: Value, tab: seq<Object>)
    ensures ValidateManifestIds([id], tab) == MissingId(id, tab)
  {
    assert [id][..0] == [];
  }

  /** `a` is the id of row `n`, and no row before `n` carries `b`. */
  ghost predicate FirstBefore(ms: seq<Object>, a: Value, b: Value) {
    exists n :: 0 <= n < |ms| && Get(ms[n], "manifestId") == a && b !in NumericIds(ms[..n])
  }

  /** Of any two ids in `r`, the earlier one is carried by a row before any row
      carrying the later one. */
  ghost predicate FirstAppearanceOrder(ms: seq<Object>, r: seq<Value>) {
    forall k, l :: 0 <= k < l < |r| ==> FirstBefore(ms, r[k], r[l])
  }

  /** The valid ids come in the order of their first rows. */
  lemma {:induction false} IdsInFirstAppearanceOrder(ms: seq<Object>)
    ensures FirstAppearanceOrder(ms, GetManifestIds(ms))
    decreases |ms|
  {
    if |ms| > 0 {
      var prefix := ms[..|ms| - 1];
      var ids := GetManifestIds(prefix);
      var r := GetManifestIds(ms);
      IdsInFirstAppearanceOrder(prefix);
      assert r == ids || r == ids + [Get(ms[|ms| - 1], "manifestId")];
      forall k, l | 0 <= k < l < |r| ensures FirstBefore(ms, r[k], r[l]) {
        assert r[k] == ids[k];
        if l < |ids| {
          assert r[l] == ids[l];
          assert FirstBefore(prefix, ids[k], ids[l]);
          FirstBeforeGrow(prefix, ms, ids[k], ids[l]);
        } else {
          assert r[k] in NumericIds(prefix);
          assert r[l] !in ids;
          var n :| 0 <= n < |prefix| && IsNumber(Get(prefix[n], "manifestId")) && Get(prefix[n], "manifestId") == r[k];
          assert prefix[n] == ms[n];
          NumericIdsGrow(prefix, n);
          assert prefix[..n] == ms[..n];
        }
      }
    }
  }

  /** A row order seen in a prefix holds in the whole list. */
  lemma FirstBeforeGrow(prefix: seq<Object>, ms: seq<Object>, a: Value, b: Value)
    requires prefix <= ms
    requires FirstBefore(prefix, a, b)
    ensures FirstBefore(ms, a, b)
  {
    var n :| 0 <= n < |prefix| && Get(prefix[n], "manifestId") == a && b !in NumericIds(prefix[..n]);
    assert prefix[n] == ms[n] && prefix[..n] == ms[..n];
  }

  /** The ids of a prefix are among the ids of the whole. */
  lemma NumericIdsGrow(ms: seq<Object>, n: nat)
    requires n <= |ms|
    ensures NumericIds(ms[..n]) <= NumericIds(ms)
  {
    forall v | v in NumericIds(ms[..n]) ensures v in NumericIds(ms) {
      var j :| 0 <= j < n && IsNumber(Get(ms[..n][j], "manifestId")) && Get(ms[..n][j], "manifestId") == v;
      assert ms[..n][j] == ms[j];
    }
  }

  // ---------------------------------------------------------------------------
  // validateWastes, validateHandlersBasic
  // ---------------------------------------------------------------------------

  function NotOnManifestTab(id: Value): FieldError {
    FieldError(Str("manifestId"),
               "manifestId " + ToStr(id) + " is not valid because it does not exist on the manifest tab.")
  }

  /** `row.manifestId && !validManifestIds.has(row.manifestId)` */
  predicate Unlisted(id: Value, ids: seq<Value>) {
    Truthy(id) && id !in ids
  }

  /** The errors of one waste or handler row: the schema's, then the referential one. */
  function TabCheck(schema: Validator, ids: seq<Value>): Object -> seq<FieldError> {
    row =>
      ProcessSchemaErrors(schema(row))
        + (if Unlisted(Get(row, "manifestId"), ids) then [NotOnManifestTab(Get(row, "manifestId"))] else [])
  }

  function MissingRowNote(noun: string, id: Value): ErrorEntry {
    NoteEntry("manifestId", "at least one " + noun + " row is required for manifestId " + ToStr(id))
  }

  /** The body shared by `validateWastes` and `validateHandlersBasic`: the row
      reports, then one note per valid id that no row of the tab carries. */
  function ValidateTab(rows: seq<Object>, ids: seq<Value>, schema: Validator, noun: string): (r: seq<ErrorEntry>)
    ensures var reports := RowReports(rows, TabCheck(schema, ids));
      && |r| == |reports| + |ValidateManifestIds(ids, rows)|
      && r[..|reports|] == reports
      && r[|reports|..] == MissingNotes(noun, ValidateManifestIds(ids, rows))
  {
    var reports := RowReports(rows, TabCheck(schema, ids));
    var notes := MissingNotes(noun, ValidateManifestIds(ids, rows));
    assert (reports + notes)[..|reports|] == reports;
    assert (reports + notes)[|reports|..] == notes;
    reports + notes
  }

  /** One note per id without rows, in order. */
  function MissingNotes(noun: string, missing: seq<Value>): (r: seq<ErrorEntry>)
    ensures |r| == |missing| && forall k :: 0 <= k < |missing| ==> r[k] == MissingRowNote(noun, missing[k])
  {
    seq(|missing|, k requires 0 <= k < |missing| => MissingRowNote(noun, missing[k]))
  }

  /** A tab's report names every row with errors and every valid id the tab has no
      row for, and is empty exactly when there are neither. */
  lemma TabContents(rows: seq<Object>, ids: seq<Value>, schema: Validator, noun: string)
    ensures var r := ValidateTab(rows, ids, schema, noun);
      forall i :: 0 <= i < |rows| && |TabCheck(schema, ids)(rows[i])| > 0 ==>
        RowEntry(Num(i + 1), TabCheck(schema, ids)(rows[i])) in r
    ensures var r := ValidateTab(rows, ids, schema, noun);
      forall v :: v in ids && v !in TabIds(rows) ==> MissingRowNote(noun, v) in r
    ensures ValidateTab(rows, ids, schema, noun) == [] <==>
      && (forall i :: 0 <= i < |rows| ==> |TabCheck(schema, ids)(rows[i])| == 0)
      && (forall v :: v in ids ==> v in TabIds(rows))
  {
    var reports := RowReports(rows, TabCheck(schema, ids));
    var notes := MissingNotes(noun, ValidateManifestIds(ids, rows));
    TabSplit(rows, ids, schema, noun);
    NotesNameMissing(noun, ids, rows);
    assert |notes| == 0 <==> forall v :: v in ids ==> v in TabIds(rows);
  }

  /** A tab's report is its row reports followed by its notes. */
  lemma TabSplit(rows: seq<Object>, ids: seq<Value>, schema: Validator, noun: string)
    ensures ValidateTab(rows, ids, schema, noun) ==
      RowReports(rows, TabCheck(schema, ids)) + MissingNotes(noun, ValidateManifestIds(ids, rows))
  {
    var r := ValidateTab(rows, ids, schema, noun);
    var n := |RowReports(rows, TabCheck(schema, ids))|;
    assert r == r[..n] + r[n..];
  }

  /** Every valid id without rows has its note, and the notes are empty exactly
      when every valid id has a row. */
  lemma NotesNameMissing(noun: string, ids: seq<Value>, rows: seq<Object>)
    ensures forall v :: v in ids && v !in TabIds(rows) ==> MissingRowNote(noun, v) in MissingNotes(noun, ValidateManifestIds(ids, rows))
    ensures |MissingNotes(noun, ValidateManifestIds(ids, rows))| == 0 <==> forall v :: v in ids ==> v in TabIds(rows)
  {
    var missing := ValidateManifestIds(ids, rows);
    var notes := MissingNotes(noun, missing);
    forall v | v in ids && v !in TabIds(rows) ensures MissingRowNote(noun, v) in notes {
      var k :| 0 <= k < |missing| && missing[k] == v;
      assert notes[k] == MissingRowNote(noun, v);
    }
    if exists v :: v in ids && v !in TabIds(rows) {
      var v :| v in ids && v !in TabIds(rows);
      assert v in missing;
    }
  }

  /** `validateWastes(wastes, validManifestIds)`: every waste row with schema or
      manifestId errors is reported under its row number, and every valid id with
      no waste row gets a note. */
  function ValidateWastes(wastes: seq<Object>, ids: seq<Value>, schema: Validator): (r: seq<ErrorEntry>)
    ensures forall i :: 0 <= i < |wastes| && |TabCheck(schema, ids)(wastes[i])| > 0 ==>
      RowEntry(Num(i + 1), TabCheck(schema, ids)(wastes[i])) in r
    ensures forall v :: v in ids && v !in TabIds(wastes) ==> MissingRowNote("waste", v) in r
    ensures r == [] <==>
      && (forall i :: 0 <= i < |wastes| ==> |TabCheck(schema, ids)(wastes[i])| == 0)
      && (forall v :: v in ids ==> v in TabIds(wastes))
  {
    TabContents(wastes, ids, schema, "waste");
    ValidateTab(wastes, ids, schema, "waste")
  }

  /** `validateHandlersBasic(handlers, validManifestIds)`: the same checks on the
      handler rows, with the note naming a handler row. */
  function ValidateHandlersBasic(handlers: seq<Object>, ids: seq<Value>, schema: Validator): (r: seq<ErrorEntry>)
    ensures forall i :: 0 <= i < |handlers| && |TabCheck(schema, ids)(handlers[i])| > 0 ==>
      RowEntry(Num(i + 1), TabCheck(schema, ids)(handlers[i])) in r
    ensures forall v :: v in ids && v !in TabIds(handlers) ==> MissingRowNote("handler", v) in r
    ensures r == [] <==>
      && (forall i :: 0 <= i < |handlers| ==> |TabCheck(schema, ids)(handlers[i])| == 0)
      && (forall v :: v in ids ==> v in TabIds(handlers))
  {
    TabContents(handlers, ids, schema, "handler");
    ValidateTab(handlers, ids, schema, "handler")
  }

  /** A row gets the referential error exactly when its id is truthy and not a valid
      id; its other errors are its schema errors. */
  lemma ReferentialCheck(schema: Validator, ids: seq<Value>, row: Object)
    ensures var errs := TabCheck(schema, ids)(row);
      var schemaErrs := schema(row);
      var id := Get(row, "manifestId");
      && |errs| == |schemaErrs| + (if Unlisted(id, ids) then 1 else 0)
      && (forall i :: 0 <= i < |schemaErrs| ==> errs[i] == SchemaError(schemaErrs[i]))
      && (Unlisted(id, ids) ==> errs[|errs| - 1] == NotOnManifestTab(id))
  {
  }

  /** On a tab whose rows all satisfy the schema and name valid ids, the report is
      empty exactly when every valid id has at least one row. */
  lemma TabClean(rows: seq<Object>, ids: seq<Value>, schema: Validator, noun: string)
    requires forall n :: 0 <= n < |rows| ==> schema(rows[n]) == [] && Get(rows[n], "manifestId") in ids
    ensures ValidateTab(rows, ids, schema, noun) == [] <==> forall v :: v in ids ==> v in TabIds(rows)
  {
    var reports := RowReports(rows, TabCheck(schema, ids));
    assert forall n :: 0 <= n < |rows| ==> |TabCheck(schema, ids)(rows[n])| == 0;
    assert |reports| == 0;
    var missing := ValidateManifestIds(ids, rows);
    var r := ValidateTab(rows, ids, schema, noun);
    assert |r| == |missing|;
    if exists v :: v in ids && v !in TabIds(rows) {
      var v :| v in ids && v !in TabIds(rows);
      assert v in missing;
    } else if |missing| > 0 {
      assert missing[0] in missing;
    }
  }

  // ---------------------------------------------------------------------------
  // validateHandlerTypes
  // ---------------------------------------------------------------------------

  /** `manifestHandlers.map(h => h.type)` */
  function Types(items: seq<Object>): seq<Value> {
    seq(|items|, i requires 0 <= i < |items| => Get(items[i], "type"))
  }

  /** `types.filter(t => t === type).length` */
  function CountType(items: seq<Object>, t: string): nat {
    |OfType(items, t)|
  }

  function MissingTypeError(key: string, t: string): FieldError {
    FieldError(Str("type"), "at least one handler row required for manifestId " + key + " with type: " + t)
  }

  function DuplicateTypeError(key: string, t: string): FieldError {
    FieldError(Str("type"), "cannot have more than one row for manifestId " + key + " with type: " + t)
  }

  /** One missing-type error per required role that `types` does not include. */
  function MissingTypes(key: string, items: seq<Object>): (r: seq<FieldError>)
    ensures |r| <= 3 && forall k :: 0 <= k < |r| ==> r[k].field == Str("type")
  {
    var types := Types(items);
    (if Str("Generator") !in types then [MissingTypeError(key, "Generator")] else [])
      + (if Str("Transporter") !in types then [MissingTypeError(key, "Transporter")] else [])
      + (if Str("DesignatedFacility") !in types then [MissingTypeError(key, "DesignatedFacility")] else [])
  }

  /** One duplicate error per single-row role that occurs more than once. */
  function DuplicateTypes(key: string, items: seq<Object>): (r: seq<FieldError>)
    ensures |r| <= 3 && forall k :: 0 <= k < |r| ==> r[k].field == Str("type")
  {
    (if CountType(items, "Generator") > 1 then [DuplicateTypeError(key, "Generator")] else [])
      + (if CountType(items, "DesignatedFacility") > 1 then [DuplicateTypeError(key, "DesignatedFacility")] else [])
      + (if CountType(items, "Broker") > 1 then [DuplicateTypeError(key, "Broker")] else [])
  }

  /** The errors of one manifest's handler rows: one missing error per absent
      required role, then one duplicate error per repeated single-row role. */
  function TypeErrors(key: string, items: seq<Object>): (r: seq<FieldError>)
    ensures |r| <= 6
    ensures forall k :: 0 <= k < |r| ==> r[k].field == Str("type")
    ensures |r| ==
      Count(CountType(items, "Generator") == 0) + Count(CountType(items, "Transporter") == 0)
      + Count(CountType(items, "DesignatedFacility") == 0) + Count(CountType(items, "Generator") > 1)
      + Count(CountType(items, "DesignatedFacility") > 1) + Count(CountType(items, "Broker") > 1)
  {
    var missing, duplicates := MissingTypes(key, items), DuplicateTypes(key, items);
    TypedAppend(missing, duplicates);
    IncludesIff(items, "Generator");
    IncludesIff(items, "Transporter");
    IncludesIff(items, "DesignatedFacility");
    missing + duplicates
  }

  /** 1 for a condition that holds, 0 otherwise. */
  function Count(c: bool): nat {
    if c then 1 else 0
  }

  /** The error `e` when `c` holds, nothing otherwise. */
  function When(c: bool, e: FieldError): seq<FieldError> {
    if c then [e] else []
  }

  /** The type errors, in order: Generator, Transporter and DesignatedFacility
      when no row has that type, then Generator, DesignatedFacility and Broker when
      more than one row has it. Each appears at most once, however many rows repeat
      a role. */
  lemma TypeErrorsInOrder(key: string, items: seq<Object>)
    ensures TypeErrors(key, items) ==
      When(CountType(items, "Generator") == 0, MissingTypeError(key, "Generator"))
      + When(CountType(items, "Transporter") == 0, MissingTypeError(key, "Transporter"))
      + When(CountType(items, "DesignatedFacility") == 0, MissingTypeError(key, "DesignatedFacility"))
      + When(CountType(items, "Generator") > 1, DuplicateTypeError(key, "Generator"))
      + When(CountType(items, "DesignatedFacility") > 1, DuplicateTypeError(key, "DesignatedFacility"))
      + When(CountType(items, "Broker") > 1, DuplicateTypeError(key, "Broker"))
  {
    IncludesIff(items, "Generator");
    IncludesIff(items, "Transporter");
    IncludesIff(items, "DesignatedFacility");
    var m1 := When(CountType(items, "Generator") == 0, MissingTypeError(key, "Generator"));
    var m2 := When(CountType(items, "Transporter") == 0, MissingTypeError(key, "Transporter"));
    var m3 := When(CountType(items, "DesignatedFacility") == 0, MissingTypeError(key, "DesignatedFacility"));
    var d1 := When(CountType(items, "Generator") > 1, DuplicateTypeError(key, "Generator"));
    var d2 := When(CountType(items, "DesignatedFacility") > 1, DuplicateTypeError(key, "DesignatedFacility"));
    var d3 := When(CountType(items, "Broker") > 1, DuplicateTypeError(key, "Broker"));
    assert MissingTypes(key, items) == m1 + m2 + m3;
    assert DuplicateTypes(key, items) == d1 + d2 + d3;
    ConcatAssociates(m1 + m2 + m3, d1 + d2, d3);
    ConcatAssociates(m1 + m2 + m3, d1, d2);
  }

  lemma TypedAppend(a: seq<FieldError>, b: seq<FieldError>)
    requires forall k :: 0 <= k < |a| ==> a[k].field == Str("type")
    requires forall k :: 0 <= k < |b| ==> b[k].field == Str("type")
    ensures forall k :: 0 <= k < |a + b| ==> (a + b)[k].field == Str("type")
  {
    forall k | 0 <= k < |a + b| ensures (a + b)[k].field == Str("type") {
      if k >= |a| {
        assert (a + b)[k] == b[k - |a|];
      }
    }
  }

  /** `types.includes(t)` exactly when some row has type `t`. */
  lemma {:induction false} IncludesIff(items: seq<Object>, t: string)
    ensures Str(t) in Types(items) <==> CountType(items, t) > 0
    decreases |items|
  {
    if |items| > 0 {
      var prefix := items[..|items| - 1];
      IncludesIff(prefix, t);
      assert Types(items) == Types(prefix) + [Get(items[|items| - 1], "type")];
    }
  }

  /** A manifest's handler rows are well typed: exactly one Generator, at least one
      Transporter, exactly one DesignatedFacility and at most one Broker. */
  predicate WellTyped(items: seq<Object>) {
    && CountType(items, "Generator") == 1
    && CountType(items, "Transporter") >= 1
    && CountType(items, "DesignatedFacility") == 1
    && CountType(items, "Broker") <= 1
  }

  /** `x` is in a list of up to three conditional errors exactly when its guard
      holds and it is that error. */
  lemma InThree(x: FieldError, c1: bool, e1: FieldError, c2: bool, e2: FieldError, c3: bool, e3: FieldError)
    ensures x in (if c1 then [e1] else []) + (if c2 then [e2] else []) + (if c3 then [e3] else []) <==>
      (c1 && x == e1) || (c2 && x == e2) || (c3 && x == e3)
  {
  }

  /** The seven messages have seven different lengths. */
  lemma MessageLengths(key: string)
    ensures |MissingTypeError(key, "Generator").message| == |key| + 70
    ensures |MissingTypeError(key, "Transporter").message| == |key| + 72
    ensures |MissingTypeError(key, "DesignatedFacility").message| == |key| + 79
    ensures |DuplicateTypeError(key, "Generator").message| == |key| + 66
    ensures |DuplicateTypeError(key, "Transporter").message| == |key| + 68
    ensures |DuplicateTypeError(key, "DesignatedFacility").message| == |key| + 75
    ensures |DuplicateTypeError(key, "Broker").message| == |key| + 63
  {
  }

  /** Each required role's missing error is reported exactly when no row has that
      type. */
  lemma MissingSpec(key: string, items: seq<Object>)
    ensures var r := TypeErrors(key, items);
      && (MissingTypeError(key, "Generator") in r <==> CountType(items, "Generator") == 0)
      && (MissingTypeError(key, "Transporter") in r <==> CountType(items, "Transporter") == 0)
      && (MissingTypeError(key, "DesignatedFacility") in r <==> CountType(items, "DesignatedFacility") == 0)
  {
    var types := Types(items);
    IncludesIff(items, "Generator");
    IncludesIff(items, "Transporter");
    IncludesIff(items, "DesignatedFacility");
    MessageLengths(key);
    var g, tr, d := MissingTypeError(key, "Generator"), MissingTypeError(key, "Transporter"), MissingTypeError(key, "DesignatedFacility");
    var cg, ct, cd := Str("Generator") !in types, Str("Transporter") !in types, Str("DesignatedFacility") !in types;
    var dg, dd, db := DuplicateTypeError(key, "Generator"), DuplicateTypeError(key, "DesignatedFacility"), DuplicateTypeError(key, "Broker");
    var xg, xd, xb := CountType(items, "Generator") > 1, CountType(items, "DesignatedFacility") > 1, CountType(items, "Broker") > 1;
    InThree(g, cg, g, ct, tr, cd, d);
    InThree(tr, cg, g, ct, tr, cd, d);
    InThree(d, cg, g, ct, tr, cd, d);
    InThree(g, xg, dg, xd, dd, xb, db);
    InThree(tr, xg, dg, xd, dd, xb, db);
    InThree(d, xg, dg, xd, dd, xb, db);
  }

  /** Each single-row role's duplicate error is reported exactly when more than one
      row has that type, and transporters are never reported as duplicates. */
  lemma DuplicateSpec(key: string, items: seq<Object>)
    ensures var r := TypeErrors(key, items);
      && (DuplicateTypeError(key, "Generator") in r <==> CountType(items, "Generator") > 1)
      && (DuplicateTypeError(key, "DesignatedFacility") in r <==> CountType(items, "DesignatedFacility") > 1)
      && (DuplicateTypeError(key, "Broker") in r <==> CountType(items, "Broker") > 1)
      && DuplicateTypeError(key, "Transporter") !in r
  {
    var types := Types(items);
    MessageLengths(key);
    var g, tr, d := MissingTypeError(key, "Generator"), MissingTypeError(key, "Transporter"), MissingTypeError(key, "DesignatedFacility");
    var cg, ct, cd := Str("Generator") !in types, Str("Transporter") !in types, Str("DesignatedFacility") !in types;
    var dg, dd, db := DuplicateTypeError(key, "Generator"), DuplicateTypeError(key, "DesignatedFacility"), DuplicateTypeError(key, "Broker");
    var dt := DuplicateTypeError(key, "Transporter");
    var xg, xd, xb := CountType(items, "Generator") > 1, CountType(items, "DesignatedFacility") > 1, CountType(items, "Broker") > 1;
    InThree(dg, cg, g, ct, tr, cd, d);
    InThree(dd, cg, g, ct, tr, cd, d);
    InThree(db, cg, g, ct, tr, cd, d);
    InThree(dt, cg, g, ct, tr, cd, d);
    InThree(dg, xg, dg, xd, dd, xb, db);
    InThree(dd, xg, dg, xd, dd, xb, db);
    InThree(db, xg, dg, xd, dd, xb, db);
    InThree(dt, xg, dg, xd, dd, xb, db);
  }

  /** A manifest has no type errors exactly when its rows are well typed. */
  lemma TypeErrorsEmpty(key: string, items: seq<Object>)
    ensures TypeErrors(key, items) == [] <==> WellTyped(items)
  {
    IncludesIff(items, "Generator");
    IncludesIff(items, "Transporter");
    IncludesIff(items, "DesignatedFacility");
  }

  /** `validateHandlerTypes(groupedHandlers)` reports `e`: a manifest's key and the
      errors of its group, which are not empty. */
  ghost predicate TypeReport(groups: seq<Group<Object>>, e: ErrorEntry) {
    && e.IdEntry? && |e.errors| > 0
    && exists i :: 0 <= i < |groups| && groups[i].key == e.manifestId && e.errors == TypeErrors(groups[i].key, groups[i].items)
  }

  /** `validateHandlerTypes(groupedHandlers)`: one entry per manifest whose handler
      rows have type errors, in the groups' order. */
  function ValidateHandlerTypes(groups: seq<Group<Object>>): (r: seq<ErrorEntry>)
    ensures |r| <= |groups|
    ensures forall k :: 0 <= k < |r| ==> r[k].IdEntry? && |r[k].errors| > 0
    decreases |groups|
  {
    if |groups| == 0 then []
    else
      var g := groups[|groups| - 1];
      var errs := TypeErrors(g.key, g.items);
      ValidateHandlerTypes(groups[..|groups| - 1]) + (if |errs| > 0 then [IdEntry(g.key, errs)] else [])
  }

  /** One group's share of the type report: its entry when it has type errors. */
  function TypeEntry(g: Group<Object>): seq<ErrorEntry> {
    var errs := TypeErrors(g.key, g.items);
    if |errs| > 0 then [IdEntry(g.key, errs)] else []
  }

  /** The last group's entry comes after the others'. */
  lemma HandlerTypesStep(groups: seq<Group<Object>>)
    requires |groups| > 0
    ensures ValidateHandlerTypes(groups) == ValidateHandlerTypes(groups[..|groups| - 1]) + TypeEntry(groups[|groups| - 1])
  {
  }

  /** Checking earlier groups and then later ones gives the two reports one after
      the other. */
  lemma {:induction false} HandlerTypesAppend(a: seq<Group<Object>>, b: seq<Group<Object>>)
    ensures ValidateHandlerTypes(a + b) == ValidateHandlerTypes(a) + ValidateHandlerTypes(b)
    decreases |b|
  {
    if |b| == 0 {
      assert a + b == a;
    } else {
      var front, last := b[..|b| - 1], b[|b| - 1];
      assert (a + b)[..|a + b| - 1] == a + front;
      assert (a + b)[|a + b| - 1] == last;
      HandlerTypesStep(a + b);
      HandlerTypesAppend(a, front);
      HandlerTypesStep(b);
      ConcatAssociates(ValidateHandlerTypes(a), ValidateHandlerTypes(front), TypeEntry(last));
    }
  }

  /** The report is the first group's entry (when it has type errors) followed by
      the rest's: at most one entry per group, in the groups' order. */
  lemma {:induction false} HandlerTypesInOrder(groups: seq<Group<Object>>)
    ensures |groups| > 0 ==>
      ValidateHandlerTypes(groups) == TypeEntry(groups[0]) + ValidateHandlerTypes(groups[1..])
    ensures ValidateHandlerTypes([]) == []
  {
    if |groups| > 0 {
      HandlerTypesAppend([groups[0]], groups[1..]);
      assert [groups[0]] + groups[1..] == groups;
      HandlerTypesOne(groups[0]);
    }
  }

  /** A single group contributes its entry when it has type errors. */
  lemma HandlerTypesOne(g: Group<Object>)
    ensures ValidateHandlerTypes([g]) == TypeEntry(g)
  {
    assert [g][..0] == [];
  }

  ghost predicate AllTypeReports(groups: seq<Group<Object>>, r: seq<ErrorEntry>) {
    forall k :: 0 <= k < |r| ==> TypeReport(groups, r[k])
  }

  /** Every entry is a manifest's non-empty type errors. */
  lemma {:induction false} HandlerTypesSound(groups: seq<Group<Object>>)
    ensures AllTypeReports(groups, ValidateHandlerTypes(groups))
    decreases |groups|
  {
    if |groups| > 0 {
      var prefix := groups[..|groups| - 1];
      var g := groups[|groups| - 1];
      var acc := ValidateHandlerTypes(prefix);
      HandlerTypesSound(prefix);
      HandlerTypesStep(groups);
      forall k | 0 <= k < |acc| ensures TypeReport(groups, acc[k]) {
        assert TypeReport(prefix, acc[k]);
        var i :| 0 <= i < |prefix| && prefix[i].key == acc[k].manifestId
          && acc[k].errors == TypeErrors(prefix[i].key, prefix[i].items);
        assert prefix[i] == groups[i];
      }
      var r := ValidateHandlerTypes(groups);
      forall k | 0 <= k < |r| ensures TypeReport(groups, r[k]) {
        if k >= |acc| {
          assert groups[|groups| - 1] == g;
        }
      }
    }
  }

  /** A manifest is reported, with its type errors, exactly when it has any. */
  lemma HandlerTypesComplete(groups: seq<Group<Object>>)
    ensures var r := ValidateHandlerTypes(groups);
      forall i :: 0 <= i < |groups| ==>
        (|TypeErrors(groups[i].key, groups[i].items)| > 0 <==>
           IdEntry(groups[i].key, TypeErrors(groups[i].key, groups[i].items)) in r)
  {
    var r := ValidateHandlerTypes(groups);
    forall i | 0 <= i < |groups|
      ensures |TypeErrors(groups[i].key, groups[i].items)| > 0 <==>
         IdEntry(groups[i].key, TypeErrors(groups[i].key, groups[i].items)) in r
    {
      var errs := TypeErrors(groups[i].key, groups[i].items);
      var e := IdEntry(groups[i].key, errs);
      if e in r {
        var k :| 0 <= k < |r| && r[k] == e;
        assert |r[k].errors| > 0;
      }
      if |errs| > 0 {
        var before, after := groups[..i], groups[i + 1..];
        assert groups == before + ([groups[i]] + after);
        HandlerTypesAppend(before, [groups[i]] + after);
        HandlerTypesAppend([groups[i]], after);
        HandlerTypesOne(groups[i]);
        assert TypeEntry(groups[i]) == [e];
        InConcat(ValidateHandlerTypes(before), ValidateHandlerTypes([groups[i]] + after), e);
        InConcat([e], ValidateHandlerTypes(after), e);
      }
    }
  }

  lemma InConcat<T>(a: seq<T>, b: seq<T>, x: T)
    ensures x in a + b <==> x in a || x in b
  {
  }

  /** The handler tab passes the type check exactly when every manifest's rows are
      well typed. */
  lemma HandlerTypesClean(groups: seq<Group<Object>>)
    ensures ValidateHandlerTypes(groups) == [] <==> forall i :: 0 <= i < |groups| ==> WellTyped(groups[i].items)
  {
    var r := ValidateHandlerTypes(groups);
    HandlerTypesSound(groups);
    HandlerTypesComplete(groups);
    forall i | 0 <= i < |groups|
      ensures TypeErrors(groups[i].key, groups[i].items) == [] <==> WellTyped(groups[i].items)
    {
      TypeErrorsEmpty(groups[i].key, groups[i].items);
    }
    if |r| > 0 {
      assert TypeReport(groups, r[0]);
      var i :| 0 <= i < |groups| && groups[i].key == r[0].manifestId
        && r[0].errors == TypeErrors(groups[i].key, groups[i].items);
      assert !WellTyped(groups[i].items);
    }
  }

  // ---------------------------------------------------------------------------
  // validateHandlersFull, validateAllHandlers
  // ---------------------------------------------------------------------------

  /** `{ field: err.instancePath.substring(1) || err.params.missingProperty, message }` */
  function FullError(err: SchemaFailure): (r: FieldError)
    ensures r.message == err.message
    ensures |err.instancePath| > 1 ==> r.field == Str(err.instancePath[1..])
    ensures |err.instancePath| <= 1 ==> r.field == Get(err.params, "missingProperty")
  {
    var sub := if |err.instancePath| > 0 then err.instancePath[1..] else "";
    FieldError(if sub != "" then Str(sub) else Get(err.params, "missingProperty"), err.message)
  }

  /** The entry of one handler that fails the full schema: its `rowNumber`, and
      its errors in Ajv's order. */
  function FullEntry(handler: Object, schema: Validator): (e: ErrorEntry)
    ensures e.RowEntry? && e.row == Get(handler, "rowNumber")
    ensures |e.errors| == |schema(handler)|
    ensures forall i :: 0 <= i < |e.errors| ==> e.errors[i] == FullError(schema(handler)[i])
  {
    var errs := schema(handler);
    RowEntry(Get(handler, "rowNumber"), seq(|errs|, i requires 0 <= i < |errs| => FullError(errs[i])))
  }

  /** The full-schema entries of a list of handlers: one per failing handler, in
      list order, and none exactly when every handler passes. */
  function FullReports(handlers: seq<Object>, schema: Validator): (r: seq<ErrorEntry>)
    ensures |r| <= |handlers|
    ensures forall i :: 0 <= i < |handlers| && |schema(handlers[i])| > 0 ==> FullEntry(handlers[i], schema) in r
    ensures forall k :: 0 <= k < |r| ==>
      exists i :: 0 <= i < |handlers| && |schema(handlers[i])| > 0 && r[k] == FullEntry(handlers[i], schema)
    ensures r == [] <==> forall i :: 0 <= i < |handlers| ==> schema(handlers[i]) == []
    decreases |handlers|
  {
    if |handlers| == 0 then []
    else
      var prefix := handlers[..|handlers| - 1];
      var h := handlers[|handlers| - 1];
      var acc := FullReports(prefix, schema);
      assert forall i :: 0 <= i < |prefix| ==> prefix[i] == handlers[i];
      acc + (if |schema(h)| > 0 then [FullEntry(h, schema)] else [])
  }

  /** One handler's share of the full-schema entries: its entry when it fails. */
  function FailingEntry(handler: Object, schema: Validator): seq<ErrorEntry> {
    if |schema(handler)| > 0 then [FullEntry(handler, schema)] else []
  }

  /** The last handler's entry comes after the others'. */
  lemma FullReportsStep(handlers: seq<Object>, schema: Validator)
    requires |handlers| > 0
    ensures FullReports(handlers, schema) ==
      FullReports(handlers[..|handlers| - 1], schema) + FailingEntry(handlers[|handlers| - 1], schema)
  {
  }

  /** Checking an earlier list of handlers and then a later one gives the two
      lists' entries one after the other. */
  lemma {:induction false} FullReportsAppend(a: seq<Object>, b: seq<Object>, schema: Validator)
    ensures FullReports(a + b, schema) == FullReports(a, schema) + FullReports(b, schema)
    decreases |b|
  {
    if |b| == 0 {
      assert a + b == a;
    } else {
      var front, last := b[..|b| - 1], b[|b| - 1];
      assert (a + b)[..|a + b| - 1] == a + front;
      assert (a + b)[|a + b| - 1] == last;
      FullReportsStep(a + b, schema);
      FullReportsAppend(a, front, schema);
      FullReportsStep(b, schema);
      ConcatAssociates(FullReports(a, schema), FullReports(front, schema), FailingEntry(last, schema));
    }
  }

  /** A single handler contributes its entry when it fails. */
  lemma FullReportsOne(handler: Object, schema: Validator)
    ensures FullReports([handler], schema) == FailingEntry(handler, schema)
  {
    assert [handler][..0] == [];
  }

  /** The entries are each failing handler's, taken from the first handler to the
      last. */
  lemma {:induction false} FullReportsInOrder(handlers: seq<Object>, schema: Validator)
    ensures |handlers| > 0 ==>
      FullReports(handlers, schema) == FailingEntry(handlers[0], schema) + FullReports(handlers[1..], schema)
    ensures FullReports([], schema) == []
  {
    if |handlers| > 0 {
      FullReportsAppend([handlers[0]], handlers[1..], schema);
      assert [handlers[0]] + handlers[1..] == handlers;
      FullReportsOne(handlers[0], schema);
    }
  }

  /** The entries of one set: the generator's, then the transporters' in order,
      then the designated facility's. */
  lemma HandlerListReports(h: HandlerSet, schema: Validator)
    ensures FullReports(HandlerList(h), schema) ==
      FailingEntry(h.generator, schema) + FullReports(h.transporters, schema)
        + FailingEntry(h.designatedFacility, schema)
  {
    FullReportsAppend([h.generator] + h.transporters, [h.designatedFacility], schema);
    FullReportsAppend([h.generator], h.transporters, schema);
    FullReportsOne(h.generator, schema);
    FullReportsOne(h.designatedFacility, schema);
  }

  /** `[handlers.generator, ...handlers.transporters, handlers.designatedFacility]` */
  function HandlerList(h: HandlerSet): seq<Object> {
    [h.generator] + h.transporters + [h.designatedFacility]
  }

  /** What `validateHandlersFull` resolves to: its list of entries, or the error it
      caught and returned in their place. */
  datatype FullCheck = Checked(entries: seq<ErrorEntry>) | Returned(error: Thrown)

  /** Pushing the undeclared identifier `broker` throws. */
  const BrokerNotDefined: Thrown := Error("ReferenceError", "broker is not defined", None)

  /** `validateHandlersFull(handlers)`. A handler set with a broker never reaches the
      schema: the branch that would add it to the list names an undeclared
      variable, and the `ReferenceError` is caught and returned. */
  function ValidateHandlersFull(h: HandlerSet, schema: Validator): (r: FullCheck)
    ensures r.Returned? <==> h.broker.Some?
    ensures r.Returned? ==> r.error == BrokerNotDefined
    ensures r.Checked? ==> forall k :: 0 <= k < |r.entries| ==> r.entries[k].RowEntry?
    ensures r.Checked? ==>
      (r.entries == [] <==> forall i :: 0 <= i < |HandlerList(h)| ==> schema(HandlerList(h)[i]) == [])
    ensures r.Checked? ==> r.entries == FullReports(HandlerList(h), schema)
    ensures r.Checked? ==>
      r.entries == FailingEntry(h.generator, schema) + FullReports(h.transporters, schema)
        + FailingEntry(h.designatedFacility, schema)
  {
    if h.broker.Some? then Returned(BrokerNotDefined)
    else
      HandlerListReports(h, schema);
      Checked(FullReports(HandlerList(h), schema))
  }

  /** The set has no broker and every handler in it satisfies the full schema. */
  ghost predicate SetValid(h: HandlerSet, schema: Validator) {
    h.broker.None? && forall i :: 0 <= i < |HandlerList(h)| ==> schema(HandlerList(h)[i]) == []
  }

  ghost predicate AllValid(sets: seq<HandlerSet>, schema: Validator) {
    forall n :: 0 <= n < |sets| ==> SetValid(sets[n], schema)
  }

  /** `results.flat()`: a returned list contributes its entries, a returned error
      contributes itself. */
  function Flatten(c: FullCheck): seq<ErrorEntry> {
    match c
    case Checked(entries) => entries
    case Returned(error) => [Caught(error)]
  }

  /** `validateAllHandlers(allHandlers)`: the full checks of every handler set, in
      order, flattened. */
  function ValidateAllHandlers(sets: seq<HandlerSet>, schema: Validator): (r: seq<ErrorEntry>)
    ensures forall k :: 0 <= k < |r| ==> r[k].RowEntry? || r[k] == Caught(BrokerNotDefined)
    decreases |sets|
  {
    if |sets| == 0 then []
    else
      var c := ValidateHandlersFull(sets[|sets| - 1], schema);
      ValidateAllHandlers(sets[..|sets| - 1], schema) + Flatten(c)
  }

  /** Checking earlier sets and then later ones gives the two results one after
      the other. */
  lemma {:induction false} AllHandlersAppend(a: seq<HandlerSet>, b: seq<HandlerSet>, schema: Validator)
    ensures ValidateAllHandlers(a + b, schema) == ValidateAllHandlers(a, schema) + ValidateAllHandlers(b, schema)
    decreases |b|
  {
    if |b| == 0 {
      assert a + b == a;
    } else {
      var front, last := b[..|b| - 1], b[|b| - 1];
      assert (a + b)[..|a + b| - 1] == a + front;
      assert (a + b)[|a + b| - 1] == last;
      AllHandlersAppend(a, front, schema);
      ConcatAssociates(ValidateAllHandlers(a, schema), ValidateAllHandlers(front, schema),
        Flatten(ValidateHandlersFull(last, schema)));
    }
  }

  /** The result is the first set's check, flattened, followed by the rest's: the
      sets are reported in their order. */
  lemma {:induction false} AllHandlersInOrder(sets: seq<HandlerSet>, schema: Validator)
    ensures |sets| > 0 ==>
      ValidateAllHandlers(sets, schema) ==
        Flatten(ValidateHandlersFull(sets[0], schema)) + ValidateAllHandlers(sets[1..], schema)
    ensures ValidateAllHandlers([], schema) == []
  {
    if |sets| > 0 {
      AllHandlersAppend([sets[0]], sets[1..], schema);
      assert [sets[0]] + sets[1..] == sets;
      AllHandlersOne(sets[0], schema);
    }
  }

  /** A single set contributes its own check, flattened. */
  lemma AllHandlersOne(h: HandlerSet, schema: Validator)
    ensures ValidateAllHandlers([h], schema) == Flatten(ValidateHandlersFull(h, schema))
  {
    assert [h][..0] == [];
  }

  /** The flattened report is empty exactly when no set has a broker and every
      handler satisfies the schema. */
  lemma {:induction false} AllHandlersClean(sets: seq<HandlerSet>, schema: Validator)
    ensures ValidateAllHandlers(sets, schema) == [] <==> AllValid(sets, schema)
    decreases |sets|
  {
    if |sets| > 0 {
      var prefix := sets[..|sets| - 1];
      var last := sets[|sets| - 1];
      AllHandlersClean(prefix, schema);
      AllValidSnoc(sets, schema);
      var c := ValidateHandlersFull(last, schema);
      assert Flatten(c) == [] <==> SetValid(last, schema);
      assert ValidateAllHandlers(sets, schema) == ValidateAllHandlers(prefix, schema) + Flatten(c);
    }
  }

  lemma AllValidSnoc(sets: seq<HandlerSet>, schema: Validator)
    requires |sets| > 0
    ensures AllValid(sets, schema) <==> AllValid(sets[..|sets| - 1], schema) && SetValid(sets[|sets| - 1], schema)
  {
    var prefix := sets[..|sets| - 1];
    assert forall n :: 0 <= n < |prefix| ==> prefix[n] == sets[n];
  }

  /** Some handler set has a broker. */
  ghost predicate AnyBroker(sets: seq<HandlerSet>) {
    exists n :: 0 <= n < |sets| && sets[n].broker.Some?
  }

  lemma AnyBrokerSnoc(sets: seq<HandlerSet>)
    requires |sets| > 0
    ensures AnyBroker(sets) <==> AnyBroker(sets[..|sets| - 1]) || sets[|sets| - 1].broker.Some?
  {
    var prefix := sets[..|sets| - 1];
    if AnyBroker(prefix) {
      var n :| 0 <= n < |prefix| && prefix[n].broker.Some?;
      assert sets[n] == prefix[n];
    }
    if AnyBroker(sets) {
      var n :| 0 <= n < |sets| && sets[n].broker.Some?;
      if n < |prefix| {
        assert prefix[n] == sets[n];
      }
    }
  }

  /** The flattened report holds the caught `ReferenceError` exactly when some set
      has a broker. */
  lemma {:induction false} AllHandlersBroker(sets: seq<HandlerSet>, schema: Validator)
    ensures Caught(BrokerNotDefined) in ValidateAllHandlers(sets, schema) <==> AnyBroker(sets)
    decreases |sets|
  {
    if |sets| > 0 {
      var prefix := sets[..|sets| - 1];
      var last := sets[|sets| - 1];
      AllHandlersBroker(prefix, schema);
      AnyBrokerSnoc(sets);
      var c := ValidateHandlersFull(last, schema);
      assert Caught(BrokerNotDefined) in Flatten(c) <==> last.broker.Some?;
      var acc := ValidateAllHandlers(prefix, schema);
      assert ValidateAllHandlers(sets, schema) == acc + Flatten(c);
    }
  }

  /** No entry of the report names a row. */
  ghost predicate RowsUndefined(r: seq<ErrorEntry>) {
    forall k :: 0 <= k < |r| ==> RowOf(r[k]) == Undefined
  }

  /** The handler sets built by `groupMapHandlers` no longer carry `rowNumber`, so
      every entry the full check reports has `row: undefined`: the report cannot
      point at a spreadsheet row. */
  lemma FullRowsUndefined(rows: seq<Object>, schema: Validator)
    ensures RowsUndefined(ValidateAllHandlers(GroupMapHandlers(rows), schema))
  {
    var sets := GroupMapHandlers(rows);
    forall n | 0 <= n < |sets| ensures AllClean(HandlerList(sets[n])) {
      var list := HandlerList(sets[n]);
      forall k | 0 <= k < |list| ensures Clean(list[k]) {
        if 0 < k < |list| - 1 {
          assert list[k] == sets[n].transporters[k - 1];
        }
      }
    }
    FullRowsUndefinedOf(sets, schema);
  }

  lemma {:induction false} FullRowsUndefinedOf(sets: seq<HandlerSet>, schema: Validator)
    requires forall n :: 0 <= n < |sets| ==> AllClean(HandlerList(sets[n]))
    ensures RowsUndefined(ValidateAllHandlers(sets, schema))
    decreases |sets|
  {
    if |sets| > 0 {
      var prefix := sets[..|sets| - 1];
      forall n | 0 <= n < |prefix| ensures AllClean(HandlerList(prefix[n])) {
        assert prefix[n] == sets[n];
      }
      FullRowsUndefinedOf(prefix, schema);
      var c := ValidateHandlersFull(sets[|sets| - 1], schema);
      SetRowsUndefined(sets[|sets| - 1], schema);
      var acc := ValidateAllHandlers(prefix, schema);
      assert ValidateAllHandlers(sets, schema) == acc + Flatten(c);
      RowsUndefinedAppend(acc, Flatten(c));
    }
  }

  lemma RowsUndefinedAppend(a: seq<ErrorEntry>, b: seq<ErrorEntry>)
    requires RowsUndefined(a) && RowsUndefined(b)
    ensures RowsUndefined(a + b)
  {
    forall k | 0 <= k < |a + b| ensures RowOf((a + b)[k]) == Undefined {
      if k >= |a| {
        assert (a + b)[k] == b[k - |a|];
      }
    }
  }

  lemma SetRowsUndefined(h: HandlerSet, schema: Validator)
    requires AllClean(HandlerList(h))
    ensures RowsUndefined(Flatten(ValidateHandlersFull(h, schema)))
  {
    var list := HandlerList(h);
    var c := ValidateHandlersFull(h, schema);
    if c.Checked? {
      assert c.entries == FullReports(list, schema);
      forall k | 0 <= k < |c.entries| ensures RowOf(c.entries[k]) == Undefined {
        var i :| 0 <= i < |list| && |schema(list[i])| > 0 && c.entries[k] == FullEntry(list[i], schema);
        assert Clean(list[i]);
      }
    }
  }
}
