/** Row normalisation and handler reshaping (`process.js`): multi-value code
    cells, the comment mini-language, the per-tab row processing, the mapping of
    handler columns onto nested manifest properties, and the folding of each
    manifest's handler rows into one handler set. */
module Process {
  import opened Wrappers
  import opened Strings
  import opened Json
  import opened Errors
  import opened Utils

  /** A spreadsheet row as the sheet reader returns it: the cells by column
      header, and the row's index in the sheet, which the reader attaches as the
      non-enumerable `__rowNum__` property (so spreading the row does not copy it). */
  datatype SheetRow = SheetRow(rowNum: int, cells: Object)

  /** A manifest or waste row after processing: its properties, and the
      `commentErrors` report the row carries until the orchestrator removes it. */
  datatype ProcessedRow = ProcessedRow(fields: Object, commentErrors: seq<ErrorEntry>)

  const MultiValueDelimiter: char := '|'
  const CommentDelimiter: char := ':'

  /** `parts.map(p => p.trim())` */
  function TrimAll(parts: seq<string>): (r: seq<string>)
    ensures |r| == |parts|
    ensures forall i :: 0 <= i < |r| ==> r[i] == Trim(parts[i])
  {
    seq(|parts|, i requires 0 <= i < |parts| => Trim(parts[i]))
  }

  // ---------------------------------------------------------------------------
  // parseCodes
  // ---------------------------------------------------------------------------

  /** `parseCodes(codes)`: nothing for a falsy cell; otherwise one trimmed code
      per `|`-separated piece of the cell's text, empty pieces included. */
  function ParseCodes(codes: Value): (r: seq<string>)
    ensures !Truthy(codes) ==> r == []
    ensures Truthy(codes) ==> |r| == Count(ToStr(codes), MultiValueDelimiter) + 1
    ensures forall i :: 0 <= i < |r| ==> MultiValueDelimiter !in r[i] && Trimmed(r[i])
  {
    if !Truthy(codes) then []
    else
      var pieces := Split(ToStr(codes), MultiValueDelimiter);
      var r := TrimAll(pieces);
      assert forall i :: 0 <= i < |r| ==> MultiValueDelimiter !in r[i] && Trimmed(r[i]) by {
        forall i | 0 <= i < |r| ensures MultiValueDelimiter !in r[i] && Trimmed(r[i]) {
          TrimKeepsAbsent(pieces[i], MultiValueDelimiter);
          TrimIsCore(pieces[i]);
        }
      }
      r
  }

  /** A non-empty, already trimmed code free of `|`. */
  predicate PlainCode(c: string) {
    c != "" && Trimmed(c) && MultiValueDelimiter !in c
  }

  /** Codes written into a cell joined by `|` read back as themselves. */
  lemma ParseCodesJoin(codes: seq<string>)
    requires |codes| > 0
    requires forall i :: 0 <= i < |codes| ==> PlainCode(codes[i])
    ensures ParseCodes(Str(Join(codes, MultiValueDelimiter))) == codes
  {
    var s := Join(codes, MultiValueDelimiter);
    JoinStarts(codes, MultiValueDelimiter);
    assert Truthy(Str(s));
    SplitJoin(codes, MultiValueDelimiter);
    forall i | 0 <= i < |codes| ensures Trim(codes[i]) == codes[i] {
      TrimTrimmed(codes[i]);
    }
    assert ParseCodes(Str(s)) == TrimAll(codes);
  }

  // ---------------------------------------------------------------------------
  // parseComments
  // ---------------------------------------------------------------------------

  /** `{ handlerId, label, description }` */
  datatype Comment = Comment(handlerId: string, labelText: string, description: string)

  /** What one `|`-separated comment segment yields: a comment, or an error message. */
  datatype Verdict = Accepted(comment: Comment) | Rejected(message: string)

  /** `{ errors, results }` */
  datatype Parsed = Parsed(errors: seq<FieldError>, results: seq<Comment>)

  function Ordinal(index: nat): string {
    IntToString(index + 1)
  }

  function EmptyMessage(index: nat): string {
    "Comment " + Ordinal(index) + " is empty."
  }

  function FormatMessage(index: nat, segment: string): string {
    "Comment " + Ordinal(index) + " is invalid. Expected format 'handlerId" + [CommentDelimiter]
      + "label" + [CommentDelimiter] + "description'; received: '" + segment + "'"
  }

  function MissingMessage(index: nat, handlerId: string, labelText: string, description: string): string {
    "Comment " + Ordinal(index) + " is missing one or more values; received handlerId: '" + handlerId
      + "', label: '" + labelText + "', description: '" + description + "'."
  }

  /** A field of an emitted comment: non-empty, trimmed, and free of both delimiters. */
  predicate CommentField(x: string) {
    x != "" && Trimmed(x) && CommentDelimiter !in x && MultiValueDelimiter !in x
  }

  predicate WellFormedComment(c: Comment) {
    CommentField(c.handlerId) && CommentField(c.labelText) && CommentField(c.description)
  }

  /** The verdict on segment number `index + 1`. A blank segment is empty; one
      with fewer than three `:`-pieces has the wrong format; one whose first three
      pieces are not all non-blank is missing values; otherwise its first three
      pieces, trimmed, are the comment, and any further pieces are dropped. */
  function CommentVerdict(segment: string, index: nat): (r: Verdict)
    requires MultiValueDelimiter !in segment
    ensures AllSpace(segment) ==> r == Rejected(EmptyMessage(index))
    ensures !AllSpace(segment) && Count(segment, CommentDelimiter) < 2 ==>
      r == Rejected(FormatMessage(index, segment))
    ensures !AllSpace(segment) && Count(segment, CommentDelimiter) >= 2 ==>
      var pieces := Split(segment, CommentDelimiter);
      r == (if AllSpace(pieces[0]) || AllSpace(pieces[1]) || AllSpace(pieces[2])
            then Rejected(MissingMessage(index, Trim(pieces[0]), Trim(pieces[1]), Trim(pieces[2])))
            else Accepted(Comment(Trim(pieces[0]), Trim(pieces[1]), Trim(pieces[2]))))
    ensures r.Accepted? ==> WellFormedComment(r.comment)
  {
    TrimEmptyIffBlank(segment);
    if Trim(segment) == "" then Rejected(EmptyMessage(index))
    else
      var pieces := Split(segment, CommentDelimiter);
      var parts := TrimAll(pieces);
      if |parts| < 3 then Rejected(FormatMessage(index, segment))
      else
        TrimEmptyIffBlank(pieces[0]);
        TrimEmptyIffBlank(pieces[1]);
        TrimEmptyIffBlank(pieces[2]);
        if parts[0] == "" || parts[1] == "" || parts[2] == "" then
          Rejected(MissingMessage(index, parts[0], parts[1], parts[2]))
        else
          PieceFacts(segment, pieces, 0);
          PieceFacts(segment, pieces, 1);
          PieceFacts(segment, pieces, 2);
          Accepted(Comment(parts[0], parts[1], parts[2]))
  }

  lemma PieceFacts(segment: string, pieces: seq<string>, i: nat)
    requires MultiValueDelimiter !in segment && pieces == Split(segment, CommentDelimiter)
    requires i < |pieces| && Trim(pieces[i]) != ""
    ensures CommentField(Trim(pieces[i]))
  {
    SplitChars(segment, CommentDelimiter, i);
    TrimKeepsAbsent(pieces[i], CommentDelimiter);
    TrimKeepsAbsent(pieces[i], MultiValueDelimiter);
    TrimIsCore(pieces[i]);
  }

  predicate AllWellFormed(cs: seq<Comment>) {
    forall k :: 0 <= k < |cs| ==> WellFormedComment(cs[k])
  }

  predicate AllCommentErrors(es: seq<FieldError>) {
    forall k :: 0 <= k < |es| ==> es[k].field == Str("comment")
  }

  /** Files one verdict in front of the later segments' errors and results. */
  function File(v: Verdict, rest: Parsed): (r: Parsed)
    requires v.Accepted? ==> WellFormedComment(v.comment)
    requires AllWellFormed(rest.results) && AllCommentErrors(rest.errors)
    ensures |r.errors| + |r.results| == |rest.errors| + |rest.results| + 1
    ensures AllWellFormed(r.results) && AllCommentErrors(r.errors)
  {
    match v
    case Accepted(c) =>
      PrependWellFormed(c, rest.results);
      Parsed(rest.errors, [c] + rest.results)
    case Rejected(m) =>
      PrependCommentError(m, rest.errors);
      Parsed([FieldError(Str("comment"), m)] + rest.errors, rest.results)
  }

  lemma PrependWellFormed(c: Comment, cs: seq<Comment>)
    requires WellFormedComment(c) && AllWellFormed(cs)
    ensures AllWellFormed([c] + cs)
  {
    var all := [c] + cs;
    forall k | 0 <= k < |all| ensures WellFormedComment(all[k]) {
      if k > 0 {
        assert all[k] == cs[k - 1];
      }
    }
  }

  lemma PrependCommentError(m: string, es: seq<FieldError>)
    requires AllCommentErrors(es)
    ensures AllCommentErrors([FieldError(Str("comment"), m)] + es)
  {
    var all := [FieldError(Str("comment"), m)] + es;
    forall k | 0 <= k < |all| ensures all[k].field == Str("comment") {
      if k > 0 {
        assert all[k] == es[k - 1];
      }
    }
  }

  /** The verdict on every segment, numbered from 1. */
  function Verdicts(segments: seq<string>): (r: seq<Verdict>)
    requires forall i :: 0 <= i < |segments| ==> MultiValueDelimiter !in segments[i]
    ensures |r| == |segments|
    ensures forall i :: 0 <= i < |r| ==> r[i] == CommentVerdict(segments[i], i)
    ensures forall i :: 0 <= i < |r| ==> r[i].Accepted? ==> WellFormedComment(r[i].comment)
  {
    seq(|segments|, i requires 0 <= i < |segments| => CommentVerdict(segments[i], i))
  }

  /** The verdicts sorted into errors and results, each in segment order. */
  function Gather(vs: seq<Verdict>): (r: Parsed)
    requires forall i :: 0 <= i < |vs| ==> vs[i].Accepted? ==> WellFormedComment(vs[i].comment)
    ensures |r.errors| + |r.results| == |vs|
    ensures AllWellFormed(r.results) && AllCommentErrors(r.errors)
  {
    if |vs| == 0 then Parsed([], [])
    else
      var rest := vs[1..];
      assert forall i :: 0 <= i < |rest| ==> rest[i] == vs[i + 1];
      File(vs[0], Gather(rest))
  }

  /** `parseComments(providedComments)`: nothing for a falsy cell; otherwise one
      error or one comment per `|`-separated segment, and every comment has
      non-empty, trimmed fields free of both delimiters. */
  function ParseComments(provided: Value): (r: Parsed)
    ensures !Truthy(provided) ==> r == Parsed([], [])
    ensures Truthy(provided) ==>
      |r.errors| + |r.results| == Count(ToStr(provided), MultiValueDelimiter) + 1
    ensures AllWellFormed(r.results) && AllCommentErrors(r.errors)
  {
    if !Truthy(provided) then Parsed([], [])
    else Gather(Verdicts(Split(ToStr(provided), MultiValueDelimiter)))
  }

  /** `handlerId:label:description` */
  function RenderComment(c: Comment): string {
    Join([c.handlerId, c.labelText, c.description], CommentDelimiter)
  }

  /** A cell holding the comments written out in the mini-language. */
  function RenderComments(cs: seq<Comment>): string {
    Join(RenderedSegments(cs), MultiValueDelimiter)
  }

  /** Each comment written out, in order. */
  function RenderedSegments(cs: seq<Comment>): (r: seq<string>)
    ensures |r| == |cs| && forall i :: 0 <= i < |cs| ==> r[i] == RenderComment(cs[i])
  {
    seq(|cs|, i requires 0 <= i < |cs| => RenderComment(cs[i]))
  }

  /** Well-formed comments written out in the mini-language parse back to
      themselves, in order and without errors. */
  lemma CommentsRoundTrip(cs: seq<Comment>)
    requires |cs| > 0
    requires AllWellFormed(cs)
    ensures ParseComments(Str(RenderComments(cs))) == Parsed([], cs)
  {
    var segs := RenderedSegments(cs);
    forall i | 0 <= i < |cs| ensures MultiValueDelimiter !in segs[i] {
      RenderedShape(cs[i]);
    }
    RenderedShape(cs[0]);
    ParseJoined(segs);
    RenderedVerdicts(cs, segs);
    var vs := Verdicts(segs);
    GatherAccepted(vs, cs);
    assert ParseComments(Str(RenderComments(cs))) == Gather(vs);
  }

  /** A cell of `|`-joined segments that is not empty (two or more segments, or one
      non-empty one) parses segment by segment. */
  lemma ParseJoined(segs: seq<string>)
    requires |segs| > 1 || (|segs| == 1 && |segs[0]| > 0)
    requires forall i :: 0 <= i < |segs| ==> MultiValueDelimiter !in segs[i]
    ensures ParseComments(Str(Join(segs, MultiValueDelimiter))) == Gather(Verdicts(segs))
  {
    var s := Join(segs, MultiValueDelimiter);
    if |segs| > 1 {
      assert s == segs[0] + [MultiValueDelimiter] + Join(segs[1..], MultiValueDelimiter);
    }
    assert |s| > 0;
    assert Truthy(Str(s));
    SplitJoin(segs, MultiValueDelimiter);
    assert ToStr(Str(s)) == s;
  }

  /** Every written-out comment is accepted as itself, whatever its number. */
  lemma RenderedVerdicts(cs: seq<Comment>, segs: seq<string>)
    requires AllWellFormed(cs)
    requires |segs| == |cs|
    requires forall i :: 0 <= i < |cs| ==> segs[i] == RenderComment(cs[i])
    requires forall i :: 0 <= i < |segs| ==> MultiValueDelimiter !in segs[i]
    ensures forall i :: 0 <= i < |cs| ==> Verdicts(segs)[i] == Accepted(cs[i]) && WellFormedComment(cs[i])
  {
    var vs := Verdicts(segs);
    forall i | 0 <= i < |cs| ensures vs[i] == Accepted(cs[i]) && WellFormedComment(cs[i]) {
      RenderedVerdict(cs[i], i);
    }
  }

  /** Verdicts that all accept gather into their comments and no errors. */
  lemma {:induction false} GatherAccepted(vs: seq<Verdict>, cs: seq<Comment>)
    requires |vs| == |cs|
    requires forall i :: 0 <= i < |vs| ==> vs[i] == Accepted(cs[i]) && WellFormedComment(cs[i])
    ensures Gather(vs) == Parsed([], cs)
  {
    if |vs| > 0 {
      var vs', cs' := vs[1..], cs[1..];
      forall k | 0 <= k < |vs'| ensures vs'[k] == Accepted(cs'[k]) && WellFormedComment(cs'[k]) {
        assert vs'[k] == vs[k + 1] && cs'[k] == cs[k + 1];
      }
      GatherAccepted(vs', cs');
      assert [cs[0]] + cs' == cs;
    }
  }

  /** A written-out comment is its three fields around two `:`, holds no `|`, and
      splits back into its fields. */
  lemma RenderedShape(c: Comment)
    requires WellFormedComment(c)
    ensures RenderComment(c) == c.handlerId + [CommentDelimiter] + c.labelText + [CommentDelimiter] + c.description
    ensures MultiValueDelimiter !in RenderComment(c)
    ensures Split(RenderComment(c), CommentDelimiter) == [c.handlerId, c.labelText, c.description]
  {
    var parts := [c.handlerId, c.labelText, c.description];
    JoinSnoc([c.handlerId], c.labelText, CommentDelimiter);
    assert [c.handlerId] + [c.labelText] == [c.handlerId, c.labelText];
    JoinSnoc([c.handlerId, c.labelText], c.description, CommentDelimiter);
    assert [c.handlerId, c.labelText] + [c.description] == parts;
    JoinAbsent(parts, CommentDelimiter, MultiValueDelimiter);
    SplitJoin(parts, CommentDelimiter);
  }

  /** A field is not blank and trims to itself. */
  lemma FieldFacts(x: string)
    requires CommentField(x)
    ensures !AllSpace(x) && Trim(x) == x
  {
    TrimTrimmed(x);
  }

  /** Every segment numbered `index + 1` that writes out a well-formed comment is
      accepted as that comment. */
  lemma RenderedVerdict(c: Comment, index: nat)
    requires WellFormedComment(c)
    ensures MultiValueDelimiter !in RenderComment(c)
    ensures CommentVerdict(RenderComment(c), index) == Accepted(c)
  {
    var s := RenderComment(c);
    RenderedShape(c);
    FieldFacts(c.handlerId);
    FieldFacts(c.labelText);
    FieldFacts(c.description);
    assert s[0] == c.handlerId[0];
    assert !AllSpace(s);
    assert Count(s, CommentDelimiter) == 2;
  }

  /** More than three pieces: the comment is accepted and the extra pieces are
      dropped. */
  lemma ExtraPiecesDropped(c: Comment, extra: string, index: nat)
    requires WellFormedComment(c) && CommentDelimiter !in extra && MultiValueDelimiter !in extra
    ensures MultiValueDelimiter !in RenderComment(c) + [CommentDelimiter] + extra
    ensures CommentVerdict(RenderComment(c) + [CommentDelimiter] + extra, index) == Accepted(c)
  {
    var parts := [c.handlerId, c.labelText, c.description];
    var s := RenderComment(c) + [CommentDelimiter] + extra;
    RenderedShape(c);
    JoinSnoc(parts, extra, CommentDelimiter);
    assert parts + [extra] == [c.handlerId, c.labelText, c.description, extra];
    JoinAbsent(parts + [extra], CommentDelimiter, MultiValueDelimiter);
    SplitJoin(parts + [extra], CommentDelimiter);
    FieldFacts(c.handlerId);
    FieldFacts(c.labelText);
    FieldFacts(c.description);
    assert s[0] == c.handlerId[0];
    assert !AllSpace(s);
    assert Count(s, CommentDelimiter) == 3;
  }

  // ---------------------------------------------------------------------------
  // convertToString and the per-tab row processing
  // ---------------------------------------------------------------------------

  /** `convertToString(value)`: `null` for a missing cell, otherwise the cell's
      text; text is kept as it is and a number becomes a numeral that reads back
      as the number. */
  function ConvertToString(v: Value): (r: Value)
    ensures r.Null? <==> v.Undefined?
    ensures r.Str? <==> !v.Undefined?
    ensures v.Str? ==> r == v
    ensures v.Num? ==> ToNumber(r) == v
  {
    if v.Undefined? then Null
    else if v.Num? then
      NumberOfIntString(v.n);
      Str(ToStr(v))
    else Str(ToStr(v))
  }

  /** `{ handlerId, label, description }` as a plain object. */
  function CommentValue(c: Comment): Value {
    Obj(map["handlerId" := Str(c.handlerId), "label" := Str(c.labelText), "description" := Str(c.description)])
  }

  function CommentValues(cs: seq<Comment>): Value {
    Arr(seq(|cs|, i requires 0 <= i < |cs| => CommentValue(cs[i])))
  }

  function CodeValues(codes: seq<string>): Value {
    Arr(seq(|codes|, i requires 0 <= i < |codes| => Str(codes[i])))
  }

  /** `errors.length > 0 ? [{ row: row.__rowNum__, errors }] : []` */
  function CommentErrorsOf(rowNum: int, errors: seq<FieldError>): (r: seq<ErrorEntry>)
    ensures |r| == 1 <==> |errors| > 0
    ensures r == [] || r == [RowEntry(Num(rowNum), errors)]
  {
    if |errors| > 0 then [RowEntry(Num(rowNum), errors)] else []
  }

  /** The keys `processManifestInfo` sets on every row. */
  const ManifestRewritten: set<string> := {"comments", "potentialShipDate", "emergencyResponsePhone"}

  /** The keys `processWasteInfo` sets on every row. */
  const WasteRewritten: set<string> := CodeColumns + {"comments", "densityUnitOfMeasurement"}

  /** One manifest row after processing: every cell kept except those rewritten
      (the comments parsed, the ship date passed through the date handler, the
      phone converted to text) and `commentErrors`, which is carried beside the
      fields; the comment report names the row's sheet index and exists exactly
      when some comment was rejected. */
  function ProcessManifestRow(row: SheetRow, handleDate: Value -> Value): (r: ProcessedRow)
    ensures r.fields.Keys == row.cells.Keys - {"commentErrors"} + ManifestRewritten
    ensures forall k :: k in row.cells && k != "commentErrors" && k !in ManifestRewritten ==>
      r.fields[k] == row.cells[k]
    ensures r.fields["emergencyResponsePhone"].Null? <==> Get(row.cells, "emergencyResponsePhone").Undefined?
    ensures r.fields["potentialShipDate"] == handleDate(Get(row.cells, "potentialShipDate"))
    ensures |r.commentErrors| == 1 <==> |ParseComments(Get(row.cells, "comments")).errors| > 0
    ensures r.commentErrors == [] ||
      r.commentErrors == [RowEntry(Num(row.rowNum), ParseComments(Get(row.cells, "comments")).errors)]
  {
    var parsed := ParseComments(Get(row.cells, "comments"));
    var phone := ConvertToString(Get(row.cells, "emergencyResponsePhone"));
    var fields := ManifestFields(row.cells, CommentValues(parsed.results),
                                 handleDate(Get(row.cells, "potentialShipDate")), phone);
    ProcessedRow(fields, CommentErrorsOf(row.rowNum, parsed.errors))
  }

  /** The fields of a processed manifest row, given its rewritten values. */
  function ManifestFields(cells: Object, comments: Value, shipDate: Value, phone: Value): (r: Object)
    ensures r.Keys == cells.Keys - {"commentErrors"} + ManifestRewritten
    ensures forall k :: k in cells && k != "commentErrors" && k !in ManifestRewritten ==> r[k] == cells[k]
    ensures r["comments"] == comments && r["potentialShipDate"] == shipDate && r["emergencyResponsePhone"] == phone
  {
    var m := cells - {"commentErrors"};
    assert m.Keys == cells.Keys - {"commentErrors"};
    Rewrite3(m, "comments", comments, "potentialShipDate", shipDate, "emergencyResponsePhone", phone)
  }

  /** `m` with `a` set to `va`, `b` to `vb` and `c` to `vc`. */
  function Rewrite3(m: Object, a: string, va: Value, b: string, vb: Value, c: string, vc: Value): (r: Object)
    requires |a| != |b| && |a| != |c| && |b| != |c|
    ensures r.Keys == m.Keys + {a, b, c}
    ensures r[a] == va && r[b] == vb && r[c] == vc
    ensures forall k :: k in m && k != a && k != b && k != c ==> r[k] == m[k]
  {
    m[a := va][b := vb][c := vc]
  }

  /** One waste row after processing: every cell kept except those rewritten (the
      four code cells split into lists, the comments parsed, the density unit
      converted to text) and `commentErrors`, carried beside the fields. Every
      code field is a list, empty when its cell is empty. */
  function ProcessWasteRow(row: SheetRow): (r: ProcessedRow)
    ensures r.fields.Keys == row.cells.Keys - {"commentErrors"} + WasteRewritten
    ensures forall k :: k in row.cells && k != "commentErrors" && k !in WasteRewritten ==>
      r.fields[k] == row.cells[k]
    ensures forall k :: k in CodeColumns ==>
      (r.fields[k] == CodesField(Get(row.cells, k)) && (|r.fields[k].items| == 0 <==> !Truthy(Get(row.cells, k))))
    ensures r.fields["densityUnitOfMeasurement"].Null? <==> Get(row.cells, "densityUnitOfMeasurement").Undefined?
    ensures |r.commentErrors| == 1 <==> |ParseComments(Get(row.cells, "comments")).errors| > 0
    ensures r.commentErrors == [] ||
      r.commentErrors == [RowEntry(Num(row.rowNum), ParseComments(Get(row.cells, "comments")).errors)]
  {
    var parsed := ParseComments(Get(row.cells, "comments"));
    var fields := WasteFields(row.cells, CommentValues(parsed.results));
    ProcessedRow(fields, CommentErrorsOf(row.rowNum, parsed.errors))
  }

  /** The fields of a processed waste row, given its processed comments. */
  function WasteFields(cells: Object, comments: Value): (r: Object)
    ensures r.Keys == cells.Keys - {"commentErrors"} + WasteRewritten
    ensures forall k :: k in cells && k != "commentErrors" && k !in WasteRewritten ==> r[k] == cells[k]
    ensures forall k :: k in CodeColumns ==> r[k] == CodesField(Get(cells, k))
    ensures r["comments"] == comments
    ensures r["densityUnitOfMeasurement"] == ConvertToString(Get(cells, "densityUnitOfMeasurement"))
  {
    CommentsNotCodes();
    Rewrite2(CodeFields(cells), "comments", comments,
             "densityUnitOfMeasurement", ConvertToString(Get(cells, "densityUnitOfMeasurement")))
  }

  /** `m` with `a` set to `va` and `b` to `vb`. */
  function Rewrite2(m: Object, a: string, va: Value, b: string, vb: Value): (r: Object)
    requires |a| != |b|
    ensures r.Keys == m.Keys + {a, b}
    ensures r[a] == va && r[b] == vb
    ensures forall k :: k in m && k != a && k != b ==> r[k] == m[k]
  {
    m[a := va][b := vb]
  }

  /** The cells without `commentErrors`, each code cell split into its list. */
  function CodeFields(cells: Object): (r: Object)
    ensures r.Keys == cells.Keys - {"commentErrors"} + CodeColumns
    ensures forall k :: k in cells && k != "commentErrors" && k !in CodeColumns ==> r[k] == cells[k]
    ensures forall k :: k in CodeColumns ==> r[k] == CodesField(Get(cells, k))
  {
    var m := cells - {"commentErrors"};
    assert m.Keys == cells.Keys - {"commentErrors"};
    assert forall k :: k in CodeColumns <==> k in CodeColumnList;
    SplitColumns(m, cells, CodeColumnList)
  }

  /** `m` with each of the code cells `columns` of `cells` split into its list. */
  function SplitColumns(m: Object, cells: Object, columns: seq<string>): (r: Object)
    ensures r.Keys == m.Keys + ColumnSet(columns)
    ensures forall k :: k in m && k !in columns ==> r[k] == m[k]
    ensures forall k :: k in columns ==> r[k] == CodesField(Get(cells, k))
    decreases |columns|
  {
    if |columns| == 0 then m
    else
      var last := columns[|columns| - 1];
      var prefix := columns[..|columns| - 1];
      assert forall k :: k in columns <==> k in prefix || k == last;
      assert ColumnSet(columns) == ColumnSet(prefix) + {last};
      SplitColumns(m, cells, prefix)[last := CodesField(Get(cells, last))]
  }

  /** The columns of a list, as a set. */
  function ColumnSet(columns: seq<string>): (r: set<string>)
    ensures forall k :: k in r <==> k in columns
  {
    set k | k in columns
  }

  lemma CodeColumnMembers()
    ensures "federalWasteCodes" in CodeColumns && "generatorWasteCodes" in CodeColumns
    ensures "tsdfWasteCodes" in CodeColumns && "txWasteCodes" in CodeColumns
  {
    assert CodeColumnList[0] == "federalWasteCodes" && CodeColumnList[1] == "generatorWasteCodes";
    assert CodeColumnList[2] == "tsdfWasteCodes" && CodeColumnList[3] == "txWasteCodes";
  }

  lemma CommentsNotCodes()
    ensures "comments" !in CodeColumns && "densityUnitOfMeasurement" !in CodeColumns
  {
    forall k | k in CodeColumns ensures |k| != |"comments"| && |k| != |"densityUnitOfMeasurement"| { }
  }

  /** A code cell after processing: the list of its codes, empty exactly when
      the cell is empty. */
  function CodesField(cell: Value): (r: Value)
    ensures r.Arr? && (|r.items| == 0 <==> !Truthy(cell))
  {
    CodeValues(ParseCodes(cell))
  }

  /** The four multi-value code columns of the waste tab. */
  const CodeColumnList: seq<string> := ["federalWasteCodes", "generatorWasteCodes", "tsdfWasteCodes", "txWasteCodes"]
  const CodeColumns: set<string> := ColumnSet(CodeColumnList)

  /** A waste row whose code cell holds `|`-joined codes and whose comment cell
      holds written-out comments gets exactly those codes and comments back, and
      no comment report. */
  lemma WasteRowRoundTrip(row: SheetRow, column: string, codes: seq<string>, cs: seq<Comment>)
    requires column in CodeColumns
    requires |codes| > 0 && forall i :: 0 <= i < |codes| ==> PlainCode(codes[i])
    requires Get(row.cells, column) == Str(Join(codes, MultiValueDelimiter))
    requires |cs| > 0 && AllWellFormed(cs)
    requires Get(row.cells, "comments") == Str(RenderComments(cs))
    ensures ProcessWasteRow(row).fields[column] == CodeValues(codes)
    ensures ProcessWasteRow(row).fields["comments"] == CommentValues(cs)
    ensures ProcessWasteRow(row).commentErrors == []
  {
    ParseCodesJoin(codes);
    CommentsRoundTrip(cs);
  }

  /** A manifest row whose comment cell holds written-out comments gets exactly
      those comments back, and no comment report. */
  lemma ManifestRowRoundTrip(row: SheetRow, handleDate: Value -> Value, cs: seq<Comment>)
    requires |cs| > 0 && AllWellFormed(cs)
    requires Get(row.cells, "comments") == Str(RenderComments(cs))
    ensures ProcessManifestRow(row, handleDate).fields["comments"] == CommentValues(cs)
    ensures ProcessManifestRow(row, handleDate).commentErrors == []
  {
    CommentsRoundTrip(cs);
  }

  /** `processManifestInfo(data)`: one processed row per sheet row, in order. */
  function ProcessManifestInfo(data: seq<SheetRow>, handleDate: Value -> Value): (r: seq<ProcessedRow>)
    ensures |r| == |data|
    ensures forall i :: 0 <= i < |r| ==> r[i] == ProcessManifestRow(data[i], handleDate)
  {
    seq(|data|, i requires 0 <= i < |data| => ProcessManifestRow(data[i], handleDate))
  }

  /** `processWasteInfo(data)`: one processed row per sheet row, in order. */
  function ProcessWasteInfo(data: seq<SheetRow>): (r: seq<ProcessedRow>)
    ensures |r| == |data|
    ensures forall i :: 0 <= i < |r| ==> r[i] == ProcessWasteRow(data[i])
  {
    seq(|data|, i requires 0 <= i < |data| => ProcessWasteRow(data[i]))
  }

  /** `{ rowNumber: row.__rowNum__, ...row }`: the row's cells plus `rowNumber`,
      which is the sheet index unless the row has a `rowNumber` column of its own,
      whose cell then wins. */
  function HandlerRow(row: SheetRow): (r: Object)
    ensures r.Keys == row.cells.Keys + {"rowNumber"}
    ensures forall k :: k in row.cells ==> r[k] == row.cells[k]
    ensures "rowNumber" !in row.cells ==> r["rowNumber"] == Num(row.rowNum)
  {
    map["rowNumber" := Num(row.rowNum)] + row.cells
  }

  /** `processHandlers(data)`: one row per sheet row, in order. */
  function ProcessHandlers(data: seq<SheetRow>): (r: seq<Object>)
    ensures |r| == |data|
    ensures forall i :: 0 <= i < |r| ==> r[i] == HandlerRow(data[i])
  {
    seq(|data|, i requires 0 <= i < |data| => HandlerRow(data[i]))
  }

  // ---------------------------------------------------------------------------
  // setDeep
  // ---------------------------------------------------------------------------

  const PathDelimiter: char := '.'

  /** `obj[path[0]][path[1]]…` read through nested plain objects: `None` when a
      key is missing or a step is not an object. */
  function Lookup(obj: Object, path: seq<string>): Option<Value>
    decreases |path|
  {
    if |path| == 0 || path[0] !in obj then None
    else if |path| == 1 then Some(obj[path[0]])
    else match obj[path[0]]
      case Obj(inner) => Lookup(inner, path[1..])
      case _ => None
  }

  /** Setting along `path` succeeds: every intermediate step is missing, falsy
      (and so replaced by `{}`), or a plain object that is writable further down. */
  predicate Writable(obj: Object, path: seq<string>)
    decreases |path|
  {
    |path| <= 1 ||
    (var child := Get(obj, path[0]);
     !Truthy(child) || (child.Obj? && Writable(child.fields, path[1..])))
  }

  /** Two paths part at some step both have, so neither is a prefix of the other. */
  predicate Diverges(p: seq<string>, q: seq<string>)
    decreases |p|
  {
    |p| > 0 && |q| > 0 && (p[0] != q[0] || Diverges(p[1..], q[1..]))
  }

  function TypeOf(v: Value): string {
    match v
    case Bool(_) => "boolean"
    case Num(_) => "number"
    case NaN => "number"
    case Str(_) => "string"
    case _ => "object"
  }

  /** The error strict-mode JavaScript throws when a property is set on a
      primitive. */
  function CannotCreate(key: string, on: Value): Thrown {
    Error("TypeError", "Cannot create property '" + key + "' on " + TypeOf(on) + " '" + ToStr(on) + "'", None)
  }

  /** The loop of `setDeep` over the split path: each intermediate step that is
      falsy is replaced by `{}` and descended into; the last key is assigned. */
  function SetPath(obj: Object, path: seq<string>, v: Value): (r: Result<Object, Thrown>)
    requires |path| > 0
    ensures r.Ok? <==> Writable(obj, path)
    decreases |path|
  {
    if |path| == 1 then Ok(obj[path[0] := v])
    else
      var child := Get(obj, path[0]);
      var current := if Truthy(child) then child else Obj(map[]);
      var next := path[1];
      if current.Obj? then
        var updated :- SetPath(current.fields, path[1..], v);
        Ok(obj[path[0] := Obj(updated)])
      else Err(CannotCreate(next, current))
  }

  /** `setDeep(obj, path, value)`, returning the updated object or the error it
      throws. */
  function SetDeep(obj: Object, path: string, v: Value): (r: Result<Object, Thrown>)
    ensures r.Ok? <==> Writable(obj, Split(path, PathDelimiter))
  {
    SetPath(obj, Split(path, PathDelimiter), v)
  }

  /** After a successful set, the value reads back at its path. */
  lemma {:induction false} SetPathReadBack(obj: Object, path: seq<string>, v: Value)
    requires |path| > 0 && Writable(obj, path)
    ensures Lookup(SetPath(obj, path, v).value, path) == Some(v)
    decreases |path|
  {
    if |path| > 1 {
      var child := Get(obj, path[0]);
      var current := if Truthy(child) then child else Obj(map[]);
      WritableEmpty(path[1..]);
      SetPathReadBack(current.fields, path[1..], v);
    }
  }

  /** A set keeps every key of the object, adds the path's first key, and leaves
      the properties under every other key as they were. */
  lemma SetPathKeys(obj: Object, path: seq<string>, v: Value)
    requires |path| > 0 && Writable(obj, path)
    ensures SetPath(obj, path, v).value.Keys == obj.Keys + {path[0]}
    ensures forall k :: k in obj && k != path[0] ==> SetPath(obj, path, v).value[k] == obj[k]
  {
    if |path| > 1 {
      WritableEmpty(path[1..]);
    }
  }

  /** Reads along a path that parts from the set path see what they saw before. */
  lemma {:induction false} SetPathKeepsOthers(obj: Object, path: seq<string>, v: Value, q: seq<string>)
    requires |path| > 0 && Writable(obj, path) && Diverges(path, q)
    ensures Lookup(SetPath(obj, path, v).value, q) == Lookup(obj, q)
    decreases |path|
  {
    var r := SetPath(obj, path, v).value;
    if path[0] == q[0] {
      var child := Get(obj, path[0]);
      var current := if Truthy(child) then child else Obj(map[]);
      WritableEmpty(path[1..]);
      SetPathKeepsOthers(current.fields, path[1..], v, q[1..]);
      assert r[q[0]] == Obj(SetPath(current.fields, path[1..], v).value);
      if !Truthy(child) {
        LookupEmpty(q[1..]);
      }
    }
  }

  /** A set leaves writable every path that parts from it. */
  lemma {:induction false} SetPathKeepsWritable(obj: Object, path: seq<string>, v: Value, q: seq<string>)
    requires |path| > 0 && Writable(obj, path) && Writable(obj, q) && Diverges(path, q)
    ensures Writable(SetPath(obj, path, v).value, q)
    decreases |path|
  {
    var r := SetPath(obj, path, v).value;
    if path[0] == q[0] {
      var child := Get(obj, path[0]);
      var current := if Truthy(child) then child else Obj(map[]);
      WritableEmpty(path[1..]);
      WritableEmpty(q[1..]);
      SetPathKeepsWritable(current.fields, path[1..], v, q[1..]);
      assert Get(r, q[0]) == Obj(SetPath(current.fields, path[1..], v).value);
    } else {
      assert Get(r, q[0]) == Get(obj, q[0]);
    }
  }

  lemma {:induction false} WritableEmpty(path: seq<string>)
    ensures Writable(map[], path)
  {
  }

  lemma LookupEmpty(path: seq<string>)
    ensures Lookup(map[], path) == None
  {
  }

  lemma {:induction false} DivergesSymmetric(p: seq<string>, q: seq<string>)
    requires Diverges(p, q)
    ensures Diverges(q, p)
    decreases |p|
  {
    if p[0] == q[0] {
      DivergesSymmetric(p[1..], q[1..]);
    }
  }

  // ---------------------------------------------------------------------------
  // mapRow and transformHandlers
  // ---------------------------------------------------------------------------

  /** One entry of a mapping table: the nested property path (the table's key,
      split at `.`) and the spreadsheet column it is filled from. */
  datatype Mapping = Mapping(path: seq<string>, column: string)

  /** The table's key for the entry: `'siteAddress.state.code'` and the like. */
  function Key(m: Mapping): string {
    Join(m.path, PathDelimiter)
  }

  /** Columns whose values are converted with `Number`; the test is on the column
      name, so the street-number columns (named `...StreetNumber`) never match. */
  const NumericColumns: set<string> := {"rowNumber", "manifestId", "streetNumber", "order"}

  /** `Number(value)` for a numeric column, `String(value)` for any other. */
  function Coerce(column: string, v: Value): Value {
    if column in NumericColumns then ToNumber(v) else Str(ToStr(v))
  }

  /** What `mapRow` puts at an entry's path: nothing when the cell is loosely
      equal to `''` (so missing cells, `0` and `false` are all left out), the
      coerced cell otherwise. */
  function Expected(m: Mapping, row: Object): Option<Value> {
    var cell := Get(row, m.column);
    if LooselyEmpty(cell) then None else Some(Coerce(m.column, cell))
  }

  /** One step of the `for…in` loop of `mapRow`. */
  function Place(acc: Object, m: Mapping, row: Object): Result<Object, Thrown> {
    var cell := Get(row, m.column);
    if LooselyEmpty(cell) then Ok(acc) else SetDeep(acc, Key(m), Coerce(m.column, cell))
  }

  /** `mapRow(row, mapping)` over the table's entries in order. */
  function MapFrom(table: seq<Mapping>, row: Object): Result<Object, Thrown>
    decreases |table|
  {
    if |table| == 0 then Ok(map[])
    else
      var acc :- MapFrom(table[..|table| - 1], row);
      Place(acc, table[|table| - 1], row)
  }

  /** A table whose paths are non-empty, free of `.` and pairwise parting, so no
      entry's path runs through another's. */
  predicate WellFormedTable(table: seq<Mapping>) {
    && (forall i :: 0 <= i < |table| ==> |table[i].path| > 0)
    && (forall i, j :: 0 <= i < |table| && 0 <= j < |table[i].path| ==> PathDelimiter !in table[i].path[j])
    && (forall i, j :: 0 <= i < j < |table| ==> Diverges(table[i].path, table[j].path))
  }

  /** Parts from every path of the table. */
  predicate PartsFromAll(q: seq<string>, table: seq<Mapping>) {
    forall i :: 0 <= i < |table| ==> Diverges(table[i].path, q)
  }

  /** The top-level keys `mapRow` creates: the first step of every entry whose
      cell is not empty. */
  function TopKeys(table: seq<Mapping>, row: Object): set<string>
    requires forall i :: 0 <= i < |table| ==> |table[i].path| > 0
  {
    set i | 0 <= i < |table| && Expected(table[i], row).Some? :: table[i].path[0]
  }

  /** Mapping a row through a well-formed table never throws; every entry's path
      then reads back its expected value (absent exactly when the cell is empty);
      nothing can be read at a path parting from every entry; and the top-level
      keys are exactly those of the filled entries. */
  lemma {:induction false} MapFromSpec(table: seq<Mapping>, row: Object)
    requires WellFormedTable(table)
    ensures MapFrom(table, row).Ok?
    ensures forall i :: 0 <= i < |table| ==> Lookup(MapFrom(table, row).value, table[i].path) == Expected(table[i], row)
    ensures forall q :: PartsFromAll(q, table) ==>
      Writable(MapFrom(table, row).value, q) && Lookup(MapFrom(table, row).value, q) == None
    ensures MapFrom(table, row).value.Keys == TopKeys(table, row)
    decreases |table|
  {
    if |table| == 0 {
      forall q ensures Writable(map[], q) && Lookup(map[], q) == None {
        WritableEmpty(q);
        LookupEmpty(q);
      }
    } else {
      var prefix := table[..|table| - 1];
      var m := table[|table| - 1];
      PrefixWellFormed(table);
      MapFromSpec(prefix, row);
      MapStep(prefix, m, row);
      assert table == prefix + [m];
      PartsFromSnoc(prefix, m);
      TopKeysSnoc(prefix, m, row);
    }
  }

  lemma PrefixWellFormed(table: seq<Mapping>)
    requires WellFormedTable(table) && |table| > 0
    ensures WellFormedTable(table[..|table| - 1])
    ensures PartsFromAll(table[|table| - 1].path, table[..|table| - 1])
  {
    var prefix := table[..|table| - 1];
    forall i | 0 <= i < |prefix| ensures Diverges(prefix[i].path, table[|table| - 1].path) {
      assert prefix[i] == table[i];
    }
  }

  lemma PartsFromSnoc(prefix: seq<Mapping>, m: Mapping)
    ensures forall q :: PartsFromAll(q, prefix + [m]) ==> PartsFromAll(q, prefix) && Diverges(m.path, q)
  {
    forall q | PartsFromAll(q, prefix + [m]) ensures PartsFromAll(q, prefix) && Diverges(m.path, q) {
      assert (prefix + [m])[|prefix|] == m;
      forall i | 0 <= i < |prefix| ensures Diverges(prefix[i].path, q) {
        assert (prefix + [m])[i] == prefix[i];
      }
    }
  }

  lemma TopKeysSnoc(prefix: seq<Mapping>, m: Mapping, row: Object)
    requires forall i :: 0 <= i < |prefix| ==> |prefix[i].path| > 0
    requires |m.path| > 0
    ensures forall i :: 0 <= i < |prefix + [m]| ==> |(prefix + [m])[i].path| > 0
    ensures TopKeys(prefix + [m], row) == TopKeys(prefix, row) + (if Expected(m, row).Some? then {m.path[0]} else {})
  {
    var table := prefix + [m];
    assert forall i :: 0 <= i < |prefix| ==> table[i] == prefix[i];
    assert table[|prefix|] == m;
  }

  /** One entry placed into the object built from the earlier ones. */
  lemma MapStep(prefix: seq<Mapping>, m: Mapping, row: Object)
    requires WellFormedTable(prefix) && |m.path| > 0
    requires forall j :: 0 <= j < |m.path| ==> PathDelimiter !in m.path[j]
    requires PartsFromAll(m.path, prefix)
    requires MapFrom(prefix, row).Ok?
    requires forall i :: 0 <= i < |prefix| ==> Lookup(MapFrom(prefix, row).value, prefix[i].path) == Expected(prefix[i], row)
    requires forall q :: PartsFromAll(q, prefix) ==>
      Writable(MapFrom(prefix, row).value, q) && Lookup(MapFrom(prefix, row).value, q) == None
    requires MapFrom(prefix, row).value.Keys == TopKeys(prefix, row)
    ensures var acc := MapFrom(prefix, row).value;
      var r := Place(acc, m, row);
      && r.Ok?
      && Lookup(r.value, m.path) == Expected(m, row)
      && (forall i :: 0 <= i < |prefix| ==> Lookup(r.value, prefix[i].path) == Lookup(acc, prefix[i].path))
      && (forall q :: PartsFromAll(q, prefix) && Diverges(m.path, q) ==>
            Writable(r.value, q) && Lookup(r.value, q) == None)
      && r.value.Keys == acc.Keys + (if Expected(m, row).Some? then {m.path[0]} else {})
  {
    var acc := MapFrom(prefix, row).value;
    var cell := Get(row, m.column);
    if !LooselyEmpty(cell) {
      var v := Coerce(m.column, cell);
      SplitJoin(m.path, PathDelimiter);
      assert Split(Key(m), PathDelimiter) == m.path;
      SetPathReadBack(acc, m.path, v);
      SetPathKeys(acc, m.path, v);
      forall i | 0 <= i < |prefix| ensures Lookup(SetPath(acc, m.path, v).value, prefix[i].path) == Lookup(acc, prefix[i].path) {
        DivergesSymmetric(prefix[i].path, m.path);
        SetPathKeepsOthers(acc, m.path, v, prefix[i].path);
      }
      forall q | PartsFromAll(q, prefix) && Diverges(m.path, q)
        ensures Writable(SetPath(acc, m.path, v).value, q) && Lookup(SetPath(acc, m.path, v).value, q) == None
      {
        SetPathKeepsWritable(acc, m.path, v, q);
        SetPathKeepsOthers(acc, m.path, v, q);
      }
    }
  }

  /** `handlerMapping`: the nested manifest property (left) each handler-tab
      column (right) fills, in the table's order. */
  const HandlerMapping: seq<Mapping> := [
    Mapping(["rowNumber"], "rowNumber"),
    Mapping(["manifestId"], "manifestId"),
    Mapping(["type"], "type"),
    Mapping(["epaSiteId"], "epaSiteId"),
    Mapping(["order"], "order"),
    Mapping(["name"], "name"),
    Mapping(["siteAddress", "streetNumber"], "siteAddressStreetNumber"),
    Mapping(["siteAddress", "address1"], "siteAddress1"),
    Mapping(["siteAddress", "address2"], "siteAddress2"),
    Mapping(["siteAddress", "city"], "siteAddressCity"),
    Mapping(["siteAddress", "state", "code"], "siteAddressState"),
    Mapping(["siteAddress", "zip"], "siteAddressZip"),
    Mapping(["siteAddress", "country", "code"], "siteAddressCountry"),
    Mapping(["mailingAddress", "streetNumber"], "mailAddressStreetNumber"),
    Mapping(["mailingAddress", "address1"], "mailAddress1"),
    Mapping(["mailingAddress", "address2"], "mailAddress2"),
    Mapping(["mailingAddress", "city"], "mailAddressCity"),
    Mapping(["mailingAddress", "state", "code"], "mailAddressState"),
    Mapping(["mailingAddress", "zip"], "mailAddressZip"),
    Mapping(["mailingAddress", "country", "code"], "mailAddressCountry"),
    Mapping(["contact", "phone", "number"], "contactPhone"),
    Mapping(["contact", "email"], "contactEmail")
  ]

  /** No path of the handler table runs through another, and none has a `.` in a
      step, so every row maps without error. */
  lemma HandlerMappingWellFormed()
    ensures WellFormedTable(HandlerMapping)
  {
    forall i, j | 0 <= i < j < |HandlerMapping| ensures Diverges(HandlerMapping[i].path, HandlerMapping[j].path) {
      HandlerPathsPart(i, j);
    }
    forall i, j | 0 <= i < |HandlerMapping| && 0 <= j < |HandlerMapping[i].path|
      ensures PathDelimiter !in HandlerMapping[i].path[j]
    {
      HandlerStepClean(i, j);
    }
  }

  lemma HandlerStepClean(i: nat, j: nat)
    requires i < |HandlerMapping| && j < |HandlerMapping[i].path|
    ensures PathDelimiter !in HandlerMapping[i].path[j]
  {
    var s := HandlerMapping[i].path[j];
    assert s in {"rowNumber", "manifestId", "type", "epaSiteId", "order", "name", "siteAddress", "streetNumber",
                 "address1", "address2", "city", "state", "code", "zip", "country", "mailingAddress", "contact",
                 "phone", "number", "email"};
  }

  lemma HandlerPathsPart(i: nat, j: nat)
    requires i < j < |HandlerMapping|
    ensures Diverges(HandlerMapping[i].path, HandlerMapping[j].path)
  {
    var p := HandlerMapping[i].path;
    var q := HandlerMapping[j].path;
    if i < 6 {
      assert |p| == 1 && p[0] != q[0];
    } else if i < 13 {
      SiteAddressPathsPart(i, j);
    } else if i < 20 {
      MailingAddressPathsPart(i, j);
    } else {
      assert p[0] == q[0] && p[1] != q[1];
      assert Diverges(p[1..], q[1..]);
    }
  }

  lemma SiteAddressPathsPart(i: nat, j: nat)
    requires 6 <= i < 13 && i < j < |HandlerMapping|
    ensures Diverges(HandlerMapping[i].path, HandlerMapping[j].path)
  {
    var p := HandlerMapping[i].path;
    var q := HandlerMapping[j].path;
    if j < 13 {
      assert p[0] == q[0] && |p| > 1 && |q| > 1 && p[1] != q[1];
      assert Diverges(p[1..], q[1..]);
    } else {
      assert p[0] != q[0];
    }
  }

  lemma MailingAddressPathsPart(i: nat, j: nat)
    requires 13 <= i < 20 && i < j < |HandlerMapping|
    ensures Diverges(HandlerMapping[i].path, HandlerMapping[j].path)
  {
    var p := HandlerMapping[i].path;
    var q := HandlerMapping[j].path;
    if j < 20 {
      assert p[0] == q[0] && |p| > 1 && |q| > 1 && p[1] != q[1];
      assert Diverges(p[1..], q[1..]);
    } else {
      assert p[0] != q[0];
    }
  }

  /** `mapRow(row, handlerMapping)`: every entry's path holds the coerced cell,
      or nothing when the cell is loosely empty, and the top-level keys are those
      of the filled entries. */
  function MapRow(row: Object): (r: Object)
    ensures forall i :: 0 <= i < |HandlerMapping| ==> Lookup(r, HandlerMapping[i].path) == Expected(HandlerMapping[i], row)
    ensures r.Keys == TopKeys(HandlerMapping, row)
  {
    HandlerMappingWellFormed();
    MapFromSpec(HandlerMapping, row);
    MapFrom(HandlerMapping, row).value
  }

  /** Nothing can be read from a mapped row at a path that parts from every path
      of the handler table. */
  lemma MapRowNothingElse(row: Object, q: seq<string>)
    requires PartsFromAll(q, HandlerMapping)
    ensures Lookup(MapRow(row), q) == None
  {
    HandlerMappingWellFormed();
    MapFromSpec(HandlerMapping, row);
  }

  /** Street numbers stay text: the numeric test sees the column name
      `siteAddressStreetNumber`, not the property name `streetNumber`. */
  lemma StreetNumberStaysText(row: Object)
    requires !LooselyEmpty(Get(row, "siteAddressStreetNumber"))
    ensures Lookup(MapRow(row), ["siteAddress", "streetNumber"]) == Some(Str(ToStr(Get(row, "siteAddressStreetNumber"))))
  {
    var m := HandlerMapping[6];
    StreetNumberEntry();
    assert Lookup(MapRow(row), m.path) == Expected(m, row);
  }

  /** The street number entry of the handler table, whose column is not numeric. */
  lemma StreetNumberEntry()
    ensures HandlerMapping[6] == Mapping(["siteAddress", "streetNumber"], "siteAddressStreetNumber")
    ensures forall v :: Coerce("siteAddressStreetNumber", v) == Str(ToStr(v))
  {
    assert "siteAddressStreetNumber" !in NumericColumns;
  }

  /** An `order` of `0` (or `false`) is loosely equal to `''`, so the transporter
      order is dropped rather than written as 0. */
  lemma ZeroOrderDropped(row: Object)
    requires Get(row, "order") == Num(0) || Get(row, "order") == Bool(false)
    ensures "order" !in MapRow(row)
  {
    assert HandlerMapping[4] == Mapping(["order"], "order");
    assert Lookup(MapRow(row), ["order"]) == None;
  }

  /** A filled `manifestId` cell is converted with `Number`. */
  lemma ManifestIdNumeric(row: Object)
    requires !LooselyEmpty(Get(row, "manifestId"))
    ensures "manifestId" in MapRow(row) && MapRow(row)["manifestId"] == ToNumber(Get(row, "manifestId"))
  {
    assert HandlerMapping[1] == Mapping(["manifestId"], "manifestId");
    assert Lookup(MapRow(row), ["manifestId"]) == Some(ToNumber(Get(row, "manifestId")));
  }

  /** `transformHandlers(handlers)`: each handler row mapped, in order. */
  function TransformHandlers(handlers: seq<Object>): (r: seq<Object>)
    ensures |r| == |handlers|
    ensures forall i :: 0 <= i < |r| ==> r[i] == MapRow(handlers[i])
  {
    seq(|handlers|, i requires 0 <= i < |handlers| => MapRow(handlers[i]))
  }

  // ---------------------------------------------------------------------------
  // groupByManifestId and groupMapHandlers
  // ---------------------------------------------------------------------------

  /** `groupByManifestId(rows)`: the rows grouped under `String(row.manifestId)`,
      one group per distinct key, every row in the group of its key. */
  function GroupByManifestId(rows: seq<Object>): (r: seq<Group<Object>>)
    ensures DistinctKeys(r) && PropertyOrdered(r)
    ensures Keys(r) == set n | 0 <= n < |rows| :: ToStr(Get(rows[n], "manifestId"))
    ensures forall i :: 0 <= i < |r| ==>
      |r[i].items| > 0 && r[i].items == Filter(rows, PropertyKey("manifestId"), r[i].key)
  {
    GroupByKey(rows, "manifestId")
  }

  /** `{ manifestId, generator, transporters, designatedFacility, broker? }`;
      `broker` is `None` when the key was deleted. */
  datatype HandlerSet = HandlerSet(
    manifestId: string,
    generator: Object,
    transporters: seq<Object>,
    designatedFacility: Object,
    broker: Option<Object>)

  /** The roles gathered so far while walking one group's rows. */
  datatype Roles = Roles(generator: Object, transporters: seq<Object>, designatedFacility: Object, broker: Object)

  /** The keys deleted from every handler row before it is filed. */
  const Bookkeeping: set<string> := {"manifestId", "type", "rowNumber"}

  predicate Clean(o: Object) {
    "manifestId" !in o && "type" !in o && "rowNumber" !in o
  }

  /** A handler row without its bookkeeping keys. */
  function Strip(item: Object): (r: Object)
    ensures Clean(r)
    ensures r.Keys == item.Keys - Bookkeeping
    ensures forall k :: k in r ==> r[k] == item[k]
  {
    item - Bookkeeping
  }

  /** `item.type === t` */
  predicate TypeIs(item: Object, t: string) {
    Get(item, "type") == Str(t)
  }

  /** One pass of the `switch`: a later Generator, DesignatedFacility or Broker
      replaces the earlier one, a Transporter is appended, any other type is
      ignored. */
  function Assign(acc: Roles, item: Object): Roles {
    var s := Strip(item);
    if TypeIs(item, "Generator") then acc.(generator := s)
    else if TypeIs(item, "Transporter") then acc.(transporters := acc.transporters + [s])
    else if TypeIs(item, "DesignatedFacility") then acc.(designatedFacility := s)
    else if TypeIs(item, "Broker") then acc.(broker := s)
    else acc
  }

  predicate AllClean(os: seq<Object>) {
    forall k :: 0 <= k < |os| ==> Clean(os[k])
  }

  /** The inner loop of `groupMapHandlers` over one group's rows. */
  function FoldRoles(items: seq<Object>): (r: Roles)
    ensures Clean(r.generator) && Clean(r.designatedFacility) && Clean(r.broker)
    ensures AllClean(r.transporters)
    decreases |items|
  {
    if |items| == 0 then Roles(map[], [], map[], map[])
    else
      var acc := FoldRoles(items[..|items| - 1]);
      var r := Assign(acc, items[|items| - 1]);
      assert AllClean(r.transporters) by {
        forall k | 0 <= k < |r.transporters| ensures Clean(r.transporters[k]) {
          if k < |acc.transporters| {
            assert r.transporters[k] == acc.transporters[k];
          }
        }
      }
      r
  }

  /** The handler set of one group. */
  function HandlerSetOf(key: string, items: seq<Object>): HandlerSet {
    var roles := FoldRoles(items);
    HandlerSet(key, roles.generator, roles.transporters, roles.designatedFacility,
               if |roles.broker| == 0 then None else Some(roles.broker))
  }

  /** `groupMapHandlers(handlers)`: one handler set per manifestId group, in the
      groups' order, each named by its group's key, with no bookkeeping key left
      in any role and `broker` present only when it has fields. */
  function GroupMapHandlers(rows: seq<Object>): (r: seq<HandlerSet>)
    ensures |r| == |GroupByManifestId(rows)|
    ensures forall i :: 0 <= i < |r| ==> r[i].manifestId == GroupByManifestId(rows)[i].key
    ensures forall i :: 0 <= i < |r| ==>
      && Clean(r[i].generator) && Clean(r[i].designatedFacility) && AllClean(r[i].transporters)
      && (r[i].broker.Some? ==> Clean(r[i].broker.value) && |r[i].broker.value| > 0)
  {
    var groups := GroupByManifestId(rows);
    seq(|groups|, i requires 0 <= i < |groups| => HandlerSetOf(groups[i].key, groups[i].items))
  }

  // Reference definitions of the roles, by filtering.

  /** The rows of type `t`, in order. */
  function OfType(items: seq<Object>, t: string): seq<Object>
    decreases |items|
  {
    if |items| == 0 then []
    else OfType(items[..|items| - 1], t) + (if TypeIs(items[|items| - 1], t) then [items[|items| - 1]] else [])
  }

  function StripAll(items: seq<Object>): seq<Object> {
    seq(|items|, i requires 0 <= i < |items| => Strip(items[i]))
  }

  /** The stripped last row of type `t`, or `{}` when there is none. */
  function LastRole(items: seq<Object>, t: string): Object {
    var rows := OfType(items, t);
    if |rows| == 0 then map[] else Strip(rows[|rows| - 1])
  }

  /** Folding a group's rows gives: the stripped Transporter rows in input order,
      and for each other role the stripped last row of that type (`{}` when there
      is none). */
  lemma {:induction false} FoldRolesSpec(items: seq<Object>)
    ensures FoldRoles(items) == Roles(LastRole(items, "Generator"), StripAll(OfType(items, "Transporter")),
                                      LastRole(items, "DesignatedFacility"), LastRole(items, "Broker"))
    decreases |items|
  {
    if |items| > 0 {
      var prefix := items[..|items| - 1];
      var x := items[|items| - 1];
      FoldRolesSpec(prefix);
      RoleTypesExclusive(x);
      var ts := OfType(prefix, "Transporter");
      if TypeIs(x, "Transporter") {
        assert StripAll(ts + [x]) == StripAll(ts) + [Strip(x)];
      }
      LastRoleStep(items, "Generator");
      LastRoleStep(items, "DesignatedFacility");
      LastRoleStep(items, "Broker");
    }
  }

  /** A row has at most one of the four role types. */
  lemma RoleTypesExclusive(x: Object)
    ensures TypeIs(x, "Generator") ==> !TypeIs(x, "Transporter") && !TypeIs(x, "DesignatedFacility") && !TypeIs(x, "Broker")
    ensures TypeIs(x, "Transporter") ==> !TypeIs(x, "DesignatedFacility") && !TypeIs(x, "Broker")
    ensures TypeIs(x, "DesignatedFacility") ==> !TypeIs(x, "Broker")
  {
    assert |"Generator"| == 9 && |"Transporter"| == 11 && |"DesignatedFacility"| == 18 && |"Broker"| == 6;
  }

  /** The last row of a type is the new row when it has that type, and the
      earlier last row otherwise. */
  lemma LastRoleStep(items: seq<Object>, t: string)
    requires |items| > 0
    ensures LastRole(items, t) ==
      if TypeIs(items[|items| - 1], t) then Strip(items[|items| - 1]) else LastRole(items[..|items| - 1], t)
  {
  }

  /** A row of a type none of the roles knows changes nothing. */
  lemma UnknownTypeIgnored(items: seq<Object>, x: Object)
    requires !TypeIs(x, "Generator") && !TypeIs(x, "Transporter")
    requires !TypeIs(x, "DesignatedFacility") && !TypeIs(x, "Broker")
    ensures FoldRoles(items + [x]) == FoldRoles(items)
  {
    assert (items + [x])[..|items|] == items;
  }

  /** Each handler set, against its group's rows: transporters are the stripped
      Transporter rows in input order; generator and designated facility are the
      stripped last row of their type (`{}` when there is none); the broker is the
      stripped last Broker row, absent when there is none or it has no fields. */
  lemma GroupMapHandlersSpec(rows: seq<Object>, i: nat)
    requires i < |GroupMapHandlers(rows)|
    ensures var h := GroupMapHandlers(rows)[i];
      var mine := Filter(rows, PropertyKey("manifestId"), h.manifestId);
      && |mine| > 0
      && h.transporters == StripAll(OfType(mine, "Transporter"))
      && h.generator == LastRole(mine, "Generator")
      && h.designatedFacility == LastRole(mine, "DesignatedFacility")
      && h.broker == (if |LastRole(mine, "Broker")| == 0 then None else Some(LastRole(mine, "Broker")))
  {
    var g := GroupByManifestId(rows)[i];
    FoldRolesSpec(g.items);
  }
}
