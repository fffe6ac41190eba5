/** From a log's rows to records: every row with a new identifier and its required columns gives one; and how
    statuses and outcomes are written for display and read again. */
module BusinessRecords {
  import opened Text
  import opened Ordering

  type Row = map<string, string>

  /** A column's trimmed text; empty when the row has no such column. */
  function Field(row: Row, column: string): (text: string) {
    if column in row then Strip(row[column]) else ""
  }

  // ---------------------------------------------------------------- statuses

  /** str.title: a letter is large after anything but a letter, and small after one. */
  function TitleCase(s: string): (title: string)
    ensures |title| == |s|
    ensures forall i :: 0 <= i < |s| ==>
      title[i] == if i > 0 && IsLetter(s[i - 1]) then LowerChar(s[i]) else UpperChar(s[i])
  {
    seq(|s|, i requires 0 <= i < |s| => if i > 0 && IsLetter(s[i - 1]) then LowerChar(s[i]) else UpperChar(s[i]))
  }

  function NormalizeStatus(value: string): (status: string) {
    ReplaceChar(Lower(Strip(value)), ' ', '_')
  }

  function DisplayStatus(status: string): (value: string) {
    TitleCase(ReplaceChar(status, '_', ' '))
  }

  // ---------------------------------------------------------------- loading

  datatype Warning =
    | MissingId | DuplicateId(id: string) | MissingColumns(id: string, columns: seq<string>)
    | UnknownStatus(id: string, status: string)

  /** What loading looks at in a row: its identifier, the required columns it lacks, and what else is remarkable. */
  datatype Reading = Reading(id: Row -> string, missing: Row -> seq<string>, remarks: Row -> seq<Warning>)

  /** The rows kept so far, the identifiers met, and what was wrong with the others. */
  datatype Loading = Loading(kept: seq<Row>, seen: set<string>, warnings: seq<Warning>)

  function LoadRow(r: Reading, s: Loading, row: Row): (next: Loading) {
    var id := r.id(row);
    if id == "" then s.(warnings := s.warnings + [MissingId])
    else if id in s.seen then s.(warnings := s.warnings + [DuplicateId(id)])
    else if r.missing(row) != [] then
      s.(seen := s.seen + {id}, warnings := s.warnings + [MissingColumns(id, r.missing(row))])
    else Loading(s.kept + [row], s.seen + {id}, s.warnings + r.remarks(row))
  }

  function Load(r: Reading, rows: seq<Row>): (s: Loading) {
    if rows == [] then Loading([], {}, [])
    else LoadRow(r, Load(r, rows[..|rows| - 1]), rows[|rows| - 1])
  }

  method LoadRows(r: Reading, rows: seq<Row>) returns (kept: seq<Row>, warnings: seq<Warning>)
    ensures kept == Load(r, rows).kept && warnings == Load(r, rows).warnings
  {
    kept, warnings := [], [];
    var seen: set<string> := {};
    for i := 0 to |rows|
      invariant Loading(kept, seen, warnings) == Load(r, rows[..i])
    {
      assert rows[..i + 1][..i] == rows[..i];
      var row := rows[i];
      var id := r.id(row);
      if id == "" {
        warnings := warnings + [MissingId];
      } else if id in seen {
        warnings := warnings + [DuplicateId(id)];
      } else {
        seen := seen + {id};
        var missing := r.missing(row);
        if missing != [] {
          warnings := warnings + [MissingColumns(id, missing)];
        } else {
          warnings := warnings + r.remarks(row);
          kept := kept + [row];
        }
      }
    }
    assert rows[..|rows|] == rows;
  }

  // ---------------------------------------------------------------- which rows are kept

  function Identifiers(r: Reading, rows: seq<Row>): (ids: seq<string>)
    ensures |ids| == |rows| && forall i :: 0 <= i < |rows| ==> ids[i] == r.id(rows[i])
  {
    seq(|rows|, i requires 0 <= i < |rows| => r.id(rows[i]))
  }

  lemma IdentifiersSnoc(r: Reading, rows: seq<Row>, row: Row)
    ensures Identifiers(r, rows + [row]) == Identifiers(r, rows) + [r.id(row)]
  {
  }

  /** The identifiers met are those of the rows that have one. */
  lemma {:induction false} SeenAreTheIds(r: Reading, rows: seq<Row>)
    ensures forall id :: id in Load(r, rows).seen <==> id != "" && id in Identifiers(r, rows)
  {
    if rows != [] {
      var front, last := rows[..|rows| - 1], rows[|rows| - 1];
      SeenAreTheIds(r, front);
      assert rows == front + [last];
      IdentifiersSnoc(r, front, last);
    }
  }

  /** A row with an identifier, the first of its kind, that lacks no required column. */
  ghost predicate IsKept(r: Reading, rows: seq<Row>, j: nat)
    requires j < |rows|
  {
    r.id(rows[j]) != "" && r.missing(rows[j]) == [] && forall i :: 0 <= i < j ==> r.id(rows[i]) != r.id(rows[j])
  }

  ghost predicate IsKeptSomewhere(r: Reading, rows: seq<Row>, row: Row) {
    exists j :: 0 <= j < |rows| && rows[j] == row && IsKept(r, rows, j)
  }

  lemma KeptIsStable(r: Reading, front: seq<Row>, last: Row, j: nat)
    requires j < |front|
    ensures IsKept(r, front + [last], j) <==> IsKept(r, front, j)
  {
    assert forall i :: 0 <= i <= j ==> (front + [last])[i] == front[i];
  }

  lemma KeptInFront(r: Reading, front: seq<Row>, last: Row, row: Row)
    ensures IsKeptSomewhere(r, front + [last], row)
      <==> IsKeptSomewhere(r, front, row) || (row == last && IsKept(r, front + [last], |front|))
  {
    var rows := front + [last];
    if IsKeptSomewhere(r, front, row) {
      var j :| 0 <= j < |front| && front[j] == row && IsKept(r, front, j);
      KeptIsStable(r, front, last, j);
      assert rows[j] == row;
    }
    if IsKeptSomewhere(r, rows, row) {
      var j :| 0 <= j < |rows| && rows[j] == row && IsKept(r, rows, j);
      if j < |front| {
        KeptIsStable(r, front, last, j);
        assert front[j] == row;
      }
    }
  }

  lemma LastIsKept(r: Reading, front: seq<Row>, last: Row)
    ensures IsKept(r, front + [last], |front|)
      <==> r.id(last) != "" && r.missing(last) == [] && r.id(last) !in Identifiers(r, front)
  {
    assert forall i :: 0 <= i < |front| ==> Identifiers(r, front)[i] == r.id((front + [last])[i]);
  }

  /** A row is kept exactly when it has an identifier, the first of its kind, and all its required columns. */
  lemma {:induction false} KeptExactlyWhen(r: Reading, rows: seq<Row>, row: Row)
    ensures row in Load(r, rows).kept <==> IsKeptSomewhere(r, rows, row)
  {
    if rows != [] {
      var front, last := rows[..|rows| - 1], rows[|rows| - 1];
      assert rows == front + [last];
      KeptExactlyWhen(r, front, row);
      SeenAreTheIds(r, front);
      KeptInFront(r, front, last, row);
      LastIsKept(r, front, last);
    }
  }

  /** The rows kept have distinct identifiers, all of them met. */
  lemma {:induction false} KeptIdsAreDistinct(r: Reading, rows: seq<Row>)
    ensures NoDuplicates(Identifiers(r, Load(r, rows).kept))
    ensures forall id :: id in Identifiers(r, Load(r, rows).kept) ==> id in Load(r, rows).seen
  {
    if rows != [] {
      var before, last := Load(r, rows[..|rows| - 1]), rows[|rows| - 1];
      KeptIdsAreDistinct(r, rows[..|rows| - 1]);
      IdentifiersSnoc(r, before.kept, last);
      NoDuplicatesSnoc(Identifiers(r, before.kept), r.id(last));
    }
  }

  /** A further row with an identifier and its required columns is kept, after the others, exactly when its
      identifier is new. */
  lemma NewRowIsKept(r: Reading, rows: seq<Row>, row: Row)
    requires r.id(row) != "" && r.missing(row) == []
    ensures Load(r, rows + [row]).kept
      == if r.id(row) in Identifiers(r, rows) then Load(r, rows).kept else Load(r, rows).kept + [row]
  {
    assert (rows + [row])[..|rows|] == rows;
    SeenAreTheIds(r, rows);
  }

  ghost function KeptAt(r: Reading, rows: seq<Row>): (p: nat -> bool) {
    (j: nat) => j < |rows| && IsKept(r, rows, j)
  }

  /** Which warnings a row gives. */
  ghost predicate IsWarning(r: Reading, rows: seq<Row>, j: nat, w: Warning)
    requires j < |rows|
  {
    var id := r.id(rows[j]);
    if id == "" then w == MissingId
    else if exists i :: 0 <= i < j && r.id(rows[i]) == id then w == DuplicateId(id)
    else if r.missing(rows[j]) != [] then w == MissingColumns(id, r.missing(rows[j]))
    else w in r.remarks(rows[j])
  }

  lemma SeenBefore(r: Reading, rows: seq<Row>, j: nat)
    requires j < |rows| && r.id(rows[j]) != ""
    ensures r.id(rows[j]) in Load(r, rows[..j]).seen <==> exists i :: 0 <= i < j && r.id(rows[i]) == r.id(rows[j])
  {
    SeenAreTheIds(r, rows[..j]);
    forall i | 0 <= i < j ensures Identifiers(r, rows[..j])[i] == r.id(rows[i]) {}
  }

  /** The rows kept are the ones at the places of the kept, in order. */
  lemma {:induction false} KeptInOrder(r: Reading, rows: seq<Row>, n: nat)
    requires n <= |rows|
    ensures Load(r, rows[..n]).kept == At(rows, Places(n, KeptAt(r, rows)))
  {
    if n > 0 {
      KeptInOrder(r, rows, n - 1);
      assert rows[..n][..n - 1] == rows[..n - 1];
      if r.id(rows[n - 1]) != "" { SeenBefore(r, rows, n - 1); }
    }
  }

  lemma NextWarnings(r: Reading, rows: seq<Row>, n: nat, w: Warning)
    requires n < |rows|
    ensures w in Load(r, rows[..n + 1]).warnings <==> w in Load(r, rows[..n]).warnings || IsWarning(r, rows, n, w)
  {
    assert rows[..n + 1][..n] == rows[..n];
    if r.id(rows[n]) != "" { SeenBefore(r, rows, n); }
  }

  lemma {:induction false} WarningsOfRows(r: Reading, rows: seq<Row>, n: nat, w: Warning)
    requires n <= |rows|
    ensures w in Load(r, rows[..n]).warnings <==> exists j :: 0 <= j < n && IsWarning(r, rows, j, w)
  {
    if n > 0 {
      WarningsOfRows(r, rows, n - 1, w);
      NextWarnings(r, rows, n - 1, w);
    }
  }

  // ---------------------------------------------------------------- the logs' rows

  function Missing(required: seq<string>, row: Row): (columns: seq<string>) {
    if required == [] then []
    else
      var before, column := Missing(required[..|required| - 1], row), required[|required| - 1];
      if Field(row, column) == "" then before + [column] else before
  }

  lemma {:induction false} MissingAreEmpty(required: seq<string>, row: Row, column: string)
    ensures column in Missing(required, row) <==> column in required && Field(row, column) == ""
  {
    if required != [] {
      var front, last := required[..|required| - 1], required[|required| - 1];
      MissingAreEmpty(front, row, column);
      assert required == front + [last];
    }
  }

  /** A row with a status the log does not know is kept, with a warning. */
  function StatusWarnings(statuses: set<string>, row: Row): (warnings: seq<Warning>) {
    var status := NormalizeStatus(Field(row, "Status"));
    if status in statuses then [] else [UnknownStatus(Field(row, "ID"), status)]
  }

  const OPERATION_STATUSES: set<string> := {"created", "executing", "completed", "failed", "rejected"}
  const DECISION_STATUSES: set<string> := {"proposed", "approved", "implemented", "reversed", "closed"}

  function OperationReading(): (r: Reading) {
    Reading(row => Field(row, "ID"), row => Missing(["Operation", "Status"], row),
            row => StatusWarnings(OPERATION_STATUSES, row))
  }

  function DecisionReading(): (r: Reading) {
    Reading(row => Field(row, "ID"), row => Missing(["Decision", "Date", "Status", "Expected Impact"], row),
            row => StatusWarnings(DECISION_STATUSES, row))
  }

  // ---------------------------------------------------------------- records

  /** A logged operation. The date is kept as written. */
  datatype LoggedOperation = LoggedOperation(
    id: string, request: string, status: string, date: string, outcome: Option<string>, classification: Option<string>)

  datatype LoggedDecision = LoggedDecision(id: string, title: string, rationale: string, status: string, date: string)

  const CLASSES: seq<string> := ["Success", "Partial", "Failure", "Cancelled"]

  /** The first of the classes that begins the text, with a space after it. */
  function Classify(outcome: string, classes: seq<string>): (classification: Option<string>) {
    if classes == [] then None
    else if classes[0] + " " <= outcome then Some(Lower(classes[0]))
    else Classify(outcome, classes[1..])
  }

  function OperationOf(row: Row): (op: LoggedOperation) {
    var outcome := Field(row, "Outcome");
    LoggedOperation(
      Field(row, "ID"), Field(row, "Operation"), NormalizeStatus(Field(row, "Status")), Field(row, "Date"),
      if outcome == "" then None else Some(outcome), if outcome == "" then None else Classify(outcome, CLASSES))
  }

  function DecisionOf(row: Row): (decision: LoggedDecision) {
    LoggedDecision(
      Field(row, "ID"), Field(row, "Decision"), Field(row, "Expected Impact"), NormalizeStatus(Field(row, "Status")),
      Field(row, "Date"))
  }

  function Operations(rows: seq<Row>): (ops: seq<LoggedOperation>)
    ensures |ops| == |rows| && forall i :: 0 <= i < |rows| ==> ops[i] == OperationOf(rows[i])
  {
    seq(|rows|, i requires 0 <= i < |rows| => OperationOf(rows[i]))
  }

  method LoadOperations(rows: seq<Row>) returns (ops: seq<LoggedOperation>, warnings: seq<Warning>)
    ensures ops == Operations(Load(OperationReading(), rows).kept)
    ensures warnings == Load(OperationReading(), rows).warnings
    ensures AreOperationsOf(rows, ops, warnings)
  {
    var kept;
    kept, warnings := LoadRows(OperationReading(), rows);
    ops := Operations(kept);
    OperationsInPlainTerms(rows);
  }

  method LoadDecisions(rows: seq<Row>) returns (decisions: seq<LoggedDecision>, warnings: seq<Warning>)
    ensures |decisions| == |Load(DecisionReading(), rows).kept|
    ensures forall i :: 0 <= i < |decisions| ==> decisions[i] == DecisionOf(Load(DecisionReading(), rows).kept[i])
    ensures warnings == Load(DecisionReading(), rows).warnings
    ensures AreDecisionsOf(rows, decisions, warnings)
  {
    var kept;
    kept, warnings := LoadRows(DecisionReading(), rows);
    decisions := seq(|kept|, i requires 0 <= i < |kept| => DecisionOf(kept[i]));
    DecisionsInPlainTerms(rows, decisions);
  }

  // ---------------------------------------------------------------- what is loaded, by columns

  /** The row has an identifier that no row before it has. */
  ghost predicate IsFirst(rows: seq<Row>, j: nat)
    requires j < |rows|
  {
    Field(rows[j], "ID") != "" && forall i :: 0 <= i < j ==> Field(rows[i], "ID") != Field(rows[j], "ID")
  }

  predicate IsFilled(row: Row, column: string) {
    Field(row, column) != ""
  }

  /** The column's name when it is not filled. */
  function IfEmpty(row: Row, column: string): (lacking: seq<string>) {
    if IsFilled(row, column) then [] else [column]
  }

  ghost function LoadsOperationAt(rows: seq<Row>): (p: nat -> bool) {
    (j: nat) => j < |rows| && IsFirst(rows, j) && IsFilled(rows[j], "Operation") && IsFilled(rows[j], "Status")
  }

  ghost function LoadsDecisionAt(rows: seq<Row>): (p: nat -> bool) {
    (j: nat) => j < |rows| && IsFirst(rows, j) && IsFilled(rows[j], "Decision") && IsFilled(rows[j], "Date")
                && IsFilled(rows[j], "Status") && IsFilled(rows[j], "Expected Impact")
  }

  ghost predicate IsClass(outcome: string, c: string) {
    (c == "Success" || c == "Partial" || c == "Failure" || c == "Cancelled") && c + " " <= outcome
  }

  ghost predicate IsOperationOf(row: Row, op: LoggedOperation) {
    && op.id == Field(row, "ID") && op.request == Field(row, "Operation") && op.date == Field(row, "Date")
    && op.status == NormalizeStatus(Field(row, "Status"))
    && op.outcome == (if IsFilled(row, "Outcome") then Some(Field(row, "Outcome")) else None)
    && (op.classification.Some? ==> exists c :: IsClass(Field(row, "Outcome"), c) && op.classification.value == Lower(c))
    && (op.classification.None? ==> forall c :: !IsClass(Field(row, "Outcome"), c))
  }

  ghost predicate IsDecisionOf(row: Row, d: LoggedDecision) {
    && d.id == Field(row, "ID") && d.title == Field(row, "Decision") && d.rationale == Field(row, "Expected Impact")
    && d.date == Field(row, "Date") && d.status == NormalizeStatus(Field(row, "Status"))
  }

  /** Which warning a row gives, by the columns it lacks and the status it has. */
  ghost predicate IsRowWarning(rows: seq<Row>, j: nat, lacking: seq<string>, known: set<string>, w: Warning)
    requires j < |rows|
  {
    var id, status := Field(rows[j], "ID"), NormalizeStatus(Field(rows[j], "Status"));
    if id == "" then w == MissingId
    else if !IsFirst(rows, j) then w == DuplicateId(id)
    else if lacking != [] then w == MissingColumns(id, lacking)
    else status !in known && w == UnknownStatus(id, status)
  }

  ghost predicate IsOperationWarning(rows: seq<Row>, j: nat, w: Warning)
    requires j < |rows|
  {
    IsRowWarning(rows, j, IfEmpty(rows[j], "Operation") + IfEmpty(rows[j], "Status"),
                 {"created", "executing", "completed", "failed", "rejected"}, w)
  }

  ghost predicate IsDecisionWarning(rows: seq<Row>, j: nat, w: Warning)
    requires j < |rows|
  {
    IsRowWarning(rows, j, IfEmpty(rows[j], "Decision") + IfEmpty(rows[j], "Date") + IfEmpty(rows[j], "Status")
                          + IfEmpty(rows[j], "Expected Impact"),
                 {"proposed", "approved", "implemented", "reversed", "closed"}, w)
  }

  /** The operations of exactly the rows with a new identifier, an operation and a status, in order; and a warning
      for each of the others and for each unknown status. */
  ghost predicate AreOperationsOf(rows: seq<Row>, ops: seq<LoggedOperation>, warnings: seq<Warning>) {
    && (exists places :: ArePlaces(places, |rows|, LoadsOperationAt(rows)) && |ops| == |places|
          && forall k :: 0 <= k < |ops| ==> IsOperationOf(rows[places[k]], ops[k]))
    && (forall w :: w in warnings <==> exists j :: 0 <= j < |rows| && IsOperationWarning(rows, j, w))
  }

  ghost predicate AreDecisionsOf(rows: seq<Row>, decisions: seq<LoggedDecision>, warnings: seq<Warning>) {
    && (exists places :: ArePlaces(places, |rows|, LoadsDecisionAt(rows)) && |decisions| == |places|
          && forall k :: 0 <= k < |decisions| ==> IsDecisionOf(rows[places[k]], decisions[k]))
    && (forall w :: w in warnings <==> exists j :: 0 <= j < |rows| && IsDecisionWarning(rows, j, w))
  }

  lemma MissingSnoc(columns: seq<string>, column: string, row: Row)
    ensures Missing(columns + [column], row) == Missing(columns, row) + IfEmpty(row, column)
  {
    assert (columns + [column])[..|columns|] == columns;
  }

  lemma MissingStep(columns: seq<string>, front: seq<string>, column: string, row: Row, lacking: seq<string>)
    requires columns == front + [column] && Missing(front, row) == lacking
    ensures Missing(columns, row) == lacking + IfEmpty(row, column)
  {
    MissingSnoc(front, column, row);
  }

  lemma MissingOfTwo(row: Row, a: string, b: string)
    ensures Missing([a, b], row) == IfEmpty(row, a) + IfEmpty(row, b)
  {
    MissingStep([a], [], a, row, []);
    MissingStep([a, b], [a], b, row, IfEmpty(row, a));
  }

  lemma MissingOfFour(row: Row, a: string, b: string, c: string, d: string)
    ensures Missing([a, b, c, d], row) == IfEmpty(row, a) + IfEmpty(row, b) + IfEmpty(row, c) + IfEmpty(row, d)
  {
    MissingOfTwo(row, a, b);
    MissingStep([a, b, c], [a, b], c, row, IfEmpty(row, a) + IfEmpty(row, b));
    MissingStep([a, b, c, d], [a, b, c], d, row, IfEmpty(row, a) + IfEmpty(row, b) + IfEmpty(row, c));
  }

  lemma {:induction false} ClassifyIs(outcome: string, classes: seq<string>)
    ensures Classify(outcome, classes).None? ==> forall c :: c in classes ==> !(c + " " <= outcome)
    ensures Classify(outcome, classes).Some? ==>
      exists c :: c in classes && c + " " <= outcome && Classify(outcome, classes).value == Lower(c)
  {
    if classes != [] && !(classes[0] + " " <= outcome) { ClassifyIs(outcome, classes[1..]); }
  }

  lemma NothingHasNoClass(c: string)
    ensures !IsClass("", c)
  {
  }

  lemma OperationIs(row: Row)
    ensures IsOperationOf(row, OperationOf(row))
  {
    var outcome := Field(row, "Outcome");
    ClassifyIs(outcome, CLASSES);
    forall c ensures IsClass(outcome, c) <==> c in CLASSES && c + " " <= outcome {}
    if outcome == "" { forall c ensures !IsClass(outcome, c) { NothingHasNoClass(c); } }
  }

  lemma SamePlaces(places: seq<nat>, n: nat, p: nat -> bool, q: nat -> bool)
    requires ArePlaces(places, n, p) && forall j :: 0 <= j < n ==> (p(j) <==> q(j))
    ensures ArePlaces(places, n, q)
  {
  }

  lemma KeptPlaces(r: Reading, rows: seq<Row>) returns (places: seq<nat>)
    ensures ArePlaces(places, |rows|, KeptAt(r, rows)) && Load(r, rows).kept == At(rows, places)
  {
    places := Places(|rows|, KeptAt(r, rows));
    assert rows[..|rows|] == rows;
    PlacesAre(|rows|, KeptAt(r, rows));
    KeptInOrder(r, rows, |rows|);
  }

  lemma AllWarnings(r: Reading, rows: seq<Row>, w: Warning)
    ensures w in Load(r, rows).warnings <==> exists j :: 0 <= j < |rows| && IsWarning(r, rows, j, w)
  {
    assert rows[..|rows|] == rows;
    WarningsOfRows(r, rows, |rows|, w);
  }

  lemma OperationRow(rows: seq<Row>, j: nat)
    requires j < |rows|
    ensures KeptAt(OperationReading(), rows)(j) <==> LoadsOperationAt(rows)(j)
  {
    MissingOfTwo(rows[j], "Operation", "Status");
  }

  lemma RowWarningIs(r: Reading, rows: seq<Row>, j: nat, lacking: seq<string>, known: set<string>, w: Warning)
    requires j < |rows| && forall i :: 0 <= i <= j ==> r.id(rows[i]) == Field(rows[i], "ID")
    requires r.missing(rows[j]) == lacking && r.remarks(rows[j]) == StatusWarnings(known, rows[j])
    ensures IsWarning(r, rows, j, w) <==> IsRowWarning(rows, j, lacking, known, w)
  {
  }

  lemma OperationRowWarning(rows: seq<Row>, j: nat, w: Warning)
    requires j < |rows|
    ensures IsWarning(OperationReading(), rows, j, w) <==> IsOperationWarning(rows, j, w)
  {
    MissingOfTwo(rows[j], "Operation", "Status");
    RowWarningIs(OperationReading(), rows, j, IfEmpty(rows[j], "Operation") + IfEmpty(rows[j], "Status"),
                 OPERATION_STATUSES, w);
  }

  lemma OperationsInPlainTerms(rows: seq<Row>)
    ensures var s := Load(OperationReading(), rows); AreOperationsOf(rows, Operations(s.kept), s.warnings)
  {
    var r, s := OperationReading(), Load(OperationReading(), rows);
    var places := KeptPlaces(r, rows);
    forall j | 0 <= j < |rows| ensures KeptAt(r, rows)(j) <==> LoadsOperationAt(rows)(j) { OperationRow(rows, j); }
    SamePlaces(places, |rows|, KeptAt(r, rows), LoadsOperationAt(rows));
    forall k | 0 <= k < |places| ensures IsOperationOf(rows[places[k]], Operations(s.kept)[k]) {
      OperationIs(rows[places[k]]);
    }
    forall w ensures w in s.warnings <==> exists j :: 0 <= j < |rows| && IsOperationWarning(rows, j, w) {
      AllWarnings(r, rows, w);
      forall j | 0 <= j < |rows| ensures IsWarning(r, rows, j, w) <==> IsOperationWarning(rows, j, w) {
        OperationRowWarning(rows, j, w);
      }
    }
  }

  lemma DecisionRow(rows: seq<Row>, j: nat)
    requires j < |rows|
    ensures KeptAt(DecisionReading(), rows)(j) <==> LoadsDecisionAt(rows)(j)
  {
    MissingOfFour(rows[j], "Decision", "Date", "Status", "Expected Impact");
  }

  lemma DecisionRowWarning(rows: seq<Row>, j: nat, w: Warning)
    requires j < |rows|
    ensures IsWarning(DecisionReading(), rows, j, w) <==> IsDecisionWarning(rows, j, w)
  {
    var row := rows[j];
    MissingOfFour(row, "Decision", "Date", "Status", "Expected Impact");
    RowWarningIs(DecisionReading(), rows, j, IfEmpty(row, "Decision") + IfEmpty(row, "Date") + IfEmpty(row, "Status")
                 + IfEmpty(row, "Expected Impact"), DECISION_STATUSES, w);
  }

  lemma DecisionsInPlainTerms(rows: seq<Row>, decisions: seq<LoggedDecision>)
    requires |decisions| == |Load(DecisionReading(), rows).kept|
    requires forall k :: 0 <= k < |decisions| ==> decisions[k] == DecisionOf(Load(DecisionReading(), rows).kept[k])
    ensures AreDecisionsOf(rows, decisions, Load(DecisionReading(), rows).warnings)
  {
    var r, s := DecisionReading(), Load(DecisionReading(), rows);
    var places := KeptPlaces(r, rows);
    forall j | 0 <= j < |rows| ensures KeptAt(r, rows)(j) <==> LoadsDecisionAt(rows)(j) { DecisionRow(rows, j); }
    SamePlaces(places, |rows|, KeptAt(r, rows), LoadsDecisionAt(rows));
    forall w ensures w in s.warnings <==> exists j :: 0 <= j < |rows| && IsDecisionWarning(rows, j, w) {
      AllWarnings(r, rows, w);
      forall j | 0 <= j < |rows| ensures IsWarning(r, rows, j, w) <==> IsDecisionWarning(rows, j, w) {
        DecisionRowWarning(rows, j, w);
      }
    }
  }

  // ---------------------------------------------------------------- display and back

  /** A word with its first letter large. */
  function Capital(w: string): (capital: string) {
    if w == "" then "" else [UpperChar(w[0])] + w[1..]
  }

  function Capitals(ws: seq<string>): (capitals: seq<string>)
    ensures |capitals| == |ws| && forall k :: 0 <= k < |ws| ==> capitals[k] == Capital(ws[k])
  {
    seq(|ws|, k requires 0 <= k < |ws| => Capital(ws[k]))
  }

  predicate IsSmallLetter(c: char) {
    'a' <= c <= 'z'
  }

  ghost predicate AreSmallWords(ws: seq<string>) {
    forall k :: 0 <= k < |ws| ==> ws[k] != "" && AllOf(ws[k], IsSmallLetter)
  }

  lemma TitleConcatAt(a: string, b: string, s: string, i: nat)
    requires s == a + " " + b && i < |s|
    ensures TitleCase(s)[i] == if i < |a| then TitleCase(a)[i] else if i == |a| then ' ' else TitleCase(b)[i - |a| - 1]
  {
    if i < |a| {
      assert s[i] == a[i] && (i > 0 ==> s[i - 1] == a[i - 1]);
    } else if i > |a| {
      assert s[i] == b[i - |a| - 1] && s[i - 1] == if i == |a| + 1 then ' ' else b[i - |a| - 2];
    }
  }

  lemma Glue(s: string, a: string, b: string)
    requires |s| == |a| + 1 + |b|
    requires forall i :: 0 <= i < |s| ==> s[i] == if i < |a| then a[i] else if i == |a| then ' ' else b[i - |a| - 1]
    ensures s == a + " " + b
  {
  }

  lemma TitleConcat(a: string, b: string)
    ensures TitleCase(a + " " + b) == TitleCase(a) + " " + TitleCase(b)
  {
    var s := a + " " + b;
    forall i | 0 <= i < |s|
      ensures TitleCase(s)[i] == if i < |a| then TitleCase(a)[i] else if i == |a| then ' ' else TitleCase(b)[i - |a| - 1]
    {
      TitleConcatAt(a, b, s, i);
    }
    Glue(TitleCase(s), TitleCase(a), TitleCase(b));
  }

  lemma DisplayConcat(a: string, b: string)
    ensures DisplayStatus(a + "_" + b) == DisplayStatus(a) + " " + DisplayStatus(b)
  {
    TitleConcat(ReplaceChar(a, '_', ' '), ReplaceChar(b, '_', ' '));
    ReplaceConcat(a + "_", b, '_', ' ');
    ReplaceConcat(a, "_", '_', ' ');
    assert ReplaceChar("_", '_', ' ') == " ";
  }

  /** A status of small words joined by underscores is displayed as the words, each with its first letter large. */
  lemma {:induction false} DisplayIs(ws: seq<string>)
    requires ws != [] && AreSmallWords(ws)
    ensures DisplayStatus(Join(ws, '_')) == Join(Capitals(ws), ' ')
  {
    var w := ws[0];
    assert ReplaceChar(w, '_', ' ') == w;
    assert DisplayStatus(w) == Capital(w);
    if |ws| > 1 {
      DisplayIs(ws[1..]);
      DisplayConcat(w, Join(ws[1..], '_'));
      assert Capitals(ws)[1..] == Capitals(ws[1..]);
      assert Join(ws, '_') == w + "_" + Join(ws[1..], '_');
    }
  }

  /** A status that the display form keeps: small, without spaces, and with no underscore or white space at its
      ends. */
  predicate KeepsItsForm(status: string) {
    && Lower(status) == status && ' ' !in status
    && (status == "" || (!IsSpace(status[0]) && status[0] != '_'
        && !IsSpace(status[|status| - 1]) && status[|status| - 1] != '_'))
  }

  lemma CaseKeepsSpace(c: char)
    ensures IsSpace(LowerChar(c)) == IsSpace(c) == IsSpace(UpperChar(c))
    ensures LowerChar(c) != ' ' <==> c != ' '
    ensures LowerChar(UpperChar(c)) == LowerChar(c) == LowerChar(LowerChar(c))
  {
  }

  lemma DisplaySolid(status: string)
    requires KeepsItsForm(status) && status != ""
    ensures Strip(DisplayStatus(status)) == DisplayStatus(status)
  {
    var spaced, shown := ReplaceChar(status, '_', ' '), DisplayStatus(status);
    var last := |status| - 1;
    assert spaced[0] == status[0] && spaced[last] == status[last];
    CaseKeepsSpace(spaced[0]);
    CaseKeepsSpace(spaced[last]);
    TrimSolid(shown, IsSpace);
  }

  lemma StripLength(s: string)
    ensures |Strip(s)| <= |s|
    ensures |Strip(s)| == |s| ==> Strip(s) == s && (s == "" || (!IsSpace(s[0]) && !IsSpace(s[|s| - 1])))
  {
    var k := RightEnd(s, IsSpace, |s|);
    RightEndFacts(s, IsSpace, |s|);
    SpanIs(s, 0, k);
    var t := TrimRight(s, IsSpace);
    var j := LeftEnd(t, IsSpace, 0);
    LeftEndFacts(t, IsSpace, 0);
    SpanIs(t, j, |t|);
    if k == |s| { assert s[0..k] == s; }
    if j == 0 { assert t[0..|t|] == t; }
  }

  /** What reading makes of one character of a status. */
  function ReadChar(c: char): (r: char) {
    if c == '_' || c == ' ' then '_' else LowerChar(c)
  }

  lemma ReadsChar(c: char, spaced: char, shown: char)
    requires spaced == (if c == '_' then ' ' else c) && (shown == LowerChar(spaced) || shown == UpperChar(spaced))
    ensures (if LowerChar(shown) == ' ' then '_' else LowerChar(shown)) == ReadChar(c)
    ensures IsSpace(shown) <==> IsSpace(c) || c == '_'
  {
    CaseKeepsSpace(spaced);
    assert IsSpace(' ') && !IsSpace('_');
  }

  lemma ReadAt(status: string, read: string, i: nat)
    requires Strip(DisplayStatus(status)) == DisplayStatus(status) && read == NormalizeStatus(DisplayStatus(status))
    requires i < |status|
    ensures |read| == |status| && read[i] == ReadChar(status[i])
  {
    var spaced, shown := ReplaceChar(status, '_', ' '), DisplayStatus(status);
    ReadsChar(status[i], spaced[i], shown[i]);
    assert read == ReplaceChar(Lower(shown), ' ', '_');
  }

  lemma FormIsKept(status: string)
    requires KeepsItsForm(status)
    ensures NormalizeStatus(DisplayStatus(status)) == status
  {
    var read := NormalizeStatus(DisplayStatus(status));
    if status == "" {
      StripLength(DisplayStatus(status));
    } else {
      DisplaySolid(status);
      forall i | 0 <= i < |status| ensures |read| == |status| && read[i] == status[i] {
        ReadAt(status, read, i);
        assert Lower(status)[i] == status[i] && status[i] != ' ';
      }
      ReadAt(status, read, 0);
    }
  }

  lemma KeptHasForm(status: string, read: string)
    requires read == NormalizeStatus(DisplayStatus(status)) == status
    ensures KeepsItsForm(status)
  {
    var spaced, shown := ReplaceChar(status, '_', ' '), DisplayStatus(status);
    StripLength(shown);
    assert |read| == |Strip(shown)|;
    forall i | 0 <= i < |status| ensures Lower(status)[i] == status[i] != ' ' {
      ReadAt(status, read, i);
      assert LowerChar('_') == '_';
    }
    if status != "" {
      ReadsChar(status[0], spaced[0], shown[0]);
      ReadsChar(status[|status| - 1], spaced[|status| - 1], shown[|status| - 1]);
    }
  }

  /** A status written for display is read back as itself exactly when it keeps its form. */
  lemma StatusRoundTrip(status: string)
    ensures NormalizeStatus(DisplayStatus(status)) == status <==> KeepsItsForm(status)
  {
    if KeepsItsForm(status) { FormIsKept(status); }
    if NormalizeStatus(DisplayStatus(status)) == status { KeptHasForm(status, status); }
  }

  // ---------------------------------------------------------------- outcomes

  /** The outcome cell: the classification, if there is one, before the outcome. */
  function OutcomeText(outcome: string, classification: Option<string>): (text: string) {
    if classification.None? || classification.value == "" then outcome
    else if outcome == "" then TitleCase(classification.value)
    else TitleCase(classification.value) + " \U{2014} " + outcome
  }

  ghost predicate BeginsApart(classes: seq<string>, i: nat)
    requires i < |classes|
  {
    forall j :: 0 <= j < i ==> classes[j] != "" && classes[i] != "" && classes[j][0] != classes[i][0]
  }

  lemma {:induction false} ClassifyFinds(classes: seq<string>, i: nat, rest: string)
    requires i < |classes| && BeginsApart(classes, i)
    ensures Classify(classes[i] + " " + rest, classes) == Some(Lower(classes[i]))
  {
    var text := classes[i] + " " + rest;
    if i > 0 {
      assert text[0] == classes[i][0];
      assert !(classes[0] + " " <= text) by { assert (classes[0] + " ")[0] == classes[0][0]; }
      ClassifyFinds(classes[1..], i - 1, rest);
    } else {
      assert classes[0] + " " <= text;
    }
  }

  lemma {:induction false} ClassifyMisses(classes: seq<string>, text: string)
    requires ' ' !in text
    ensures Classify(text, classes) == None
  {
    if classes != [] {
      assert !(classes[0] + " " <= text) by { assert (classes[0] + " ")[|classes[0]|] == ' '; }
      ClassifyMisses(classes[1..], text);
    }
  }

  /** A large letter and small ones. */
  predicate IsClassName(w: string) {
    w != "" && 'A' <= w[0] <= 'Z' && forall i :: 1 <= i < |w| ==> 'a' <= w[i] <= 'z'
  }

  lemma NameKeepsForm(w: string)
    requires IsClassName(w)
    ensures TitleCase(Lower(w)) == w && ' ' !in w && Lower(w) != ""
  {
    var small := Lower(w);
    var title := TitleCase(small);
    forall i | 0 <= i < |w| ensures title[i] == w[i] != ' ' {
      assert i > 0 ==> IsLetter(small[i - 1]) && LowerChar(small[i]) == w[i];
    }
  }

  lemma ClassWords(i: nat)
    requires i < |CLASSES|
    ensures IsClassName(CLASSES[i]) && BeginsApart(CLASSES, i)
  {
    assert IsClassName("Success") && IsClassName("Partial") && IsClassName("Failure") && IsClassName("Cancelled");
  }

  /** A classified outcome is classified again when it is read exactly when there is some text of the outcome
      besides the class. */
  lemma ClassificationReloads(i: nat, outcome: string)
    requires i < |CLASSES|
    ensures Classify(OutcomeText(outcome, Some(Lower(CLASSES[i]))), CLASSES) == Some(Lower(CLASSES[i])) <==> outcome != ""
  {
    ClassWords(i);
    NameKeepsForm(CLASSES[i]);
    if outcome == "" {
      ClassifyMisses(CLASSES, CLASSES[i]);
    } else {
      ClassifyFinds(CLASSES, i, "\U{2014} " + outcome);
      assert CLASSES[i] + " \U{2014} " + outcome == CLASSES[i] + " " + ("\U{2014} " + outcome);
    }
  }
}
