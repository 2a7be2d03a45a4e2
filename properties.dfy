/** What a whole comparison promises, stated over `Expected`, which
    `TableComparator.Compare` is proved to return. */
module Properties {
  import opened Values
  import opened Fields
  import opened Rows
  import opened Report
  import opened Comparator

  /** The rows that the query for `table` fetches, when building and
      running that query both succeed. */
  function FetchedRows(db: Database, s: Settings, fields: seq<string>, table: Option<string>): Option<seq<seq<Value>>>
  {
    match BuildQuery(db, s, fields, table)
    case Err(_) => None
    case Ok(query) =>
      match db.executeQuery(query)
      case Raised(_) => None
      case Answered(rows) => Some(rows)
  }

  /** A result always carries both tables' column lists; it has an empty
      field list exactly on the short-circuit for differing column sets,
      and that result is the bare field-mismatch report. */
  lemma ShortCircuit(db: Database, s: Settings)
    requires Expected(db, s).Ok?
    ensures db.tableFields(s.table1).Answered? && db.tableFields(s.table2).Answered?
    ensures var res := Expected(db, s).value;
            res.table1Fields == db.tableFields(s.table1).value && res.table2Fields == db.tableFields(s.table2).value
    ensures var res := Expected(db, s).value;
            res.fields == [] <==> FieldsDiffer(s, res.table1Fields, res.table2Fields)
    ensures var res := Expected(db, s).value;
            res.fields == [] ==> res == MismatchResult(s, res.table1Fields, res.table2Fields)
  {
    var fields1, fields2 := db.tableFields(s.table1).value, db.tableFields(s.table2).value;
    if !FieldsDiffer(s, fields1, fields2) {
      var fields := GetComparisonFields(db, s).value;
      var rows1 := FetchedRows(db, s, fields, s.table1).value;
      var rows2 := FetchedRows(db, s, fields, s.table2).value;
      assert Expected(db, s) == ExpectedRows(s, fields, rows1, rows2, fields1, fields2);
    }
  }

  /** On the short-circuit no query is built or run: two adapters that
      report the same column lists give the same result, whatever their
      keys and rows. */
  lemma ShortCircuitRunsNoQuery(db1: Database, db2: Database, s: Settings)
    requires db1.tableFields(s.table1) == db2.tableFields(s.table1)
    requires db1.tableFields(s.table2) == db2.tableFields(s.table2)
    requires db1.tableFields(s.table1).Answered? && db1.tableFields(s.table2).Answered?
    requires FieldsDiffer(s, db1.tableFields(s.table1).value, db1.tableFields(s.table2).value)
    ensures Expected(db1, s) == Expected(db2, s)
    ensures Expected(db1, s).Ok? && Expected(db1, s).value.fields == []
  {
  }

  /** Every failure, from the adapter or from the comparison itself, leaves
      as a single error carrying the common prefix. */
  lemma ErrorsPrefixed(db: Database, s: Settings)
    requires Expected(db, s).Err?
    ensures ErrorPrefix <= Expected(db, s).error
  {
  }

  /** When nothing is left to compare the comparison fails with the
      no-fields message. */
  lemma NoFieldsError(db: Database, s: Settings)
    requires db.tableFields(s.table1).Answered? && db.tableFields(s.table2).Answered?
    requires !FieldsDiffer(s, db.tableFields(s.table1).value, db.tableFields(s.table2).value)
    requires GetComparisonFields(db, s) == Ok([])
    ensures Expected(db, s) == Err(ErrorPrefix + NoFieldsMessage)
  {
  }

  /** An explicit field list is compared verbatim: the column-set check is
      skipped and the exclude list is not applied to it. */
  lemma ExplicitFields(db: Database, s: Settings)
    requires |s.fields| > 0
    requires Expected(db, s).Ok?
    ensures Expected(db, s).value.fields == s.fields
  {
    ShortCircuit(db, s);
  }

  /** Without an explicit list, a comparison that gets past the column-set
      check compares each column both tables have, once, unless excluded. */
  lemma CommonFields(db: Database, s: Settings)
    requires |s.fields| == 0
    requires Expected(db, s).Ok? && Expected(db, s).value.fields != []
    ensures var res := Expected(db, s).value;
            Distinct(res.fields) &&
            forall f :: f in res.fields <==> f in res.table1Fields && f in res.table2Fields && f !in s.excludeFields
  {
    ShortCircuit(db, s);
  }

  /** A result past the short-circuit comes from the two fetched row lists:
      it records their lengths, its row differences are the positional
      comparison of their dictionaries, and its summary entries follow. */
  lemma ResultFromRows(db: Database, s: Settings)
    requires Expected(db, s).Ok? && Expected(db, s).value.fields != []
    ensures var res := Expected(db, s).value;
            GetComparisonFields(db, s) == Ok(res.fields) &&
            FetchedRows(db, s, res.fields, s.table1).Some? && FetchedRows(db, s, res.fields, s.table2).Some?
    ensures var res := Expected(db, s).value;
            var rows1 := FetchedRows(db, s, res.fields, s.table1).value;
            var rows2 := FetchedRows(db, s, res.fields, s.table2).value;
            res.table1RowCount == |rows1| && res.table2RowCount == |rows2| &&
            Positional(RowDicts(res.fields, rows1), RowDicts(res.fields, rows2), res.fields) == Ok(res.rowDifferences) &&
            res.differences == Summaries(s, |rows1|, |rows2|, |res.rowDifferences|)
  {
    ShortCircuit(db, s);
    var fields := GetComparisonFields(db, s).value;
    var rows1 := FetchedRows(db, s, fields, s.table1).value;
    var rows2 := FetchedRows(db, s, fields, s.table2).value;
    assert Expected(db, s) == ExpectedRows(s, fields, rows1, rows2, db.tableFields(s.table1).value, db.tableFields(s.table2).value);
  }

  /** The summary list on its own: a row-count entry first exactly when the
      counts differ, a counting entry exactly when there are row
      differences, carrying their number, and never a field-mismatch entry. */
  lemma SummariesSpec(s: Settings, count1: nat, count2: nat, diffCount: nat)
    ensures var sums := Summaries(s, count1, count2, diffCount);
            (|sums| > 0 && sums[0].RowCount?) <==> count1 != count2
    ensures var sums := Summaries(s, count1, count2, diffCount);
            (exists i :: 0 <= i < |sums| && sums[i].MultipleRowDiff?) <==> diffCount > 0
    ensures var sums := Summaries(s, count1, count2, diffCount);
            forall i :: 0 <= i < |sums| && sums[i].MultipleRowDiff? ==>
              sums[i] == MultipleRowDiff(diffCount, MultipleRowDiffMessage(diffCount))
    ensures var sums := Summaries(s, count1, count2, diffCount);
            forall i :: 0 <= i < |sums| ==> !sums[i].FieldMismatch?
  {
    var sums := Summaries(s, count1, count2, diffCount);
    if diffCount > 0 {
      assert sums[|sums| - 1].MultipleRowDiff?;
    }
  }

  /** The summary entries of a comparison: a row-count entry comes first
      exactly when the row counts differ; a counting entry is present
      exactly when there is a row difference, and counts them all;
      differing row counts always leave a row difference per extra row; no
      field-mismatch entry. */
  lemma SummaryEntries(db: Database, s: Settings)
    requires Expected(db, s).Ok? && Expected(db, s).value.fields != []
    ensures var res := Expected(db, s).value;
            (|res.differences| > 0 && res.differences[0].RowCount?) <==> res.table1RowCount != res.table2RowCount
    ensures var res := Expected(db, s).value;
            (exists i :: 0 <= i < |res.differences| && res.differences[i].MultipleRowDiff?) <==> res.rowDifferences != []
    ensures var res := Expected(db, s).value;
            forall i :: 0 <= i < |res.differences| && res.differences[i].MultipleRowDiff? ==>
              res.differences[i] == MultipleRowDiff(|res.rowDifferences|, MultipleRowDiffMessage(|res.rowDifferences|))
    ensures var res := Expected(db, s).value;
            forall i :: 0 <= i < |res.differences| ==> !res.differences[i].FieldMismatch?
    ensures var res := Expected(db, s).value;
            |res.rowDifferences| >= res.table1RowCount - res.table2RowCount &&
            |res.rowDifferences| >= res.table2RowCount - res.table1RowCount
  {
    ResultFromRows(db, s);
    var res := Expected(db, s).value;
    var rows1 := FetchedRows(db, s, res.fields, s.table1).value;
    var rows2 := FetchedRows(db, s, res.fields, s.table2).value;
    SummariesSpec(s, |rows1|, |rows2|, |res.rowDifferences|);
    PositionalCoversExtras(RowDicts(res.fields, rows1), RowDicts(res.fields, rows2), res.fields);
  }

  /** Row differences come in row-number order, each numbered between 1
      and the longer row count and each naming at least one field. */
  lemma RowDifferencesOrdered(db: Database, s: Settings)
    requires Expected(db, s).Ok?
    ensures var rd := Expected(db, s).value.rowDifferences;
            forall i, j :: 0 <= i < j < |rd| ==> rd[i].rowNumber < rd[j].rowNumber
    ensures var res := Expected(db, s).value;
            forall i :: 0 <= i < |res.rowDifferences| ==>
              1 <= res.rowDifferences[i].rowNumber <= Max(res.table1RowCount, res.table2RowCount) &&
              res.rowDifferences[i].differences != []
  {
    ShortCircuit(db, s);
    var res := Expected(db, s).value;
    if res.fields != [] {
      ResultFromRows(db, s);
      var rows1 := FetchedRows(db, s, res.fields, s.table1).value;
      var rows2 := FetchedRows(db, s, res.fields, s.table2).value;
      var d1, d2 := RowDicts(res.fields, rows1), RowDicts(res.fields, rows2);
      PositionalOrder(d1, d2, res.fields);
      forall i | 0 <= i < |d1| ensures DistinctKeys(d1[i]) {
        RowDictSpec(res.fields, rows1[i]);
      }
      PositionalNonEmpty(d1, d2, res.fields);
    }
  }

  /** Some row difference carries row number `n`. */
  predicate Reported(rowDiffs: seq<RowDiff>, n: nat)
  {
    exists i :: 0 <= i < |rowDiffs| && rowDiffs[i].rowNumber == n
  }

  /** A position both tables have is reported exactly when some column of
      its first-table row reads differently in the second-table row. */
  lemma RowDifferencesPaired(db: Database, s: Settings)
    requires Expected(db, s).Ok? && Expected(db, s).value.fields != []
    ensures FetchedRows(db, s, Expected(db, s).value.fields, s.table1).Some? &&
            FetchedRows(db, s, Expected(db, s).value.fields, s.table2).Some?
    ensures var res := Expected(db, s).value;
            var rows1 := FetchedRows(db, s, res.fields, s.table1).value;
            var rows2 := FetchedRows(db, s, res.fields, s.table2).value;
            forall j :: 0 <= j < |rows1| && j < |rows2| ==>
              (Reported(res.rowDifferences, j + 1) <==> !SameRow(RowDict(res.fields, rows1[j]), RowDict(res.fields, rows2[j])))
  {
    ResultFromRows(db, s);
    var res := Expected(db, s).value;
    var rows1 := FetchedRows(db, s, res.fields, s.table1).value;
    var rows2 := FetchedRows(db, s, res.fields, s.table2).value;
    var d1, d2 := RowDicts(res.fields, rows1), RowDicts(res.fields, rows2);
    forall i | 0 <= i < |d1| ensures DistinctKeys(d1[i]) {
      RowDictSpec(res.fields, rows1[i]);
    }
    PositionalPaired(d1, d2, res.fields);
  }

  /** Every position that only one of the tables has is reported. */
  lemma RowDifferencesExtra(db: Database, s: Settings)
    requires Expected(db, s).Ok? && Expected(db, s).value.fields != []
    ensures var res := Expected(db, s).value;
            forall n :: Min(res.table1RowCount, res.table2RowCount) < n <= Max(res.table1RowCount, res.table2RowCount) ==>
              Reported(res.rowDifferences, n)
  {
    ResultFromRows(db, s);
    var res := Expected(db, s).value;
    var rows1 := FetchedRows(db, s, res.fields, s.table1).value;
    var rows2 := FetchedRows(db, s, res.fields, s.table2).value;
    var d1, d2 := RowDicts(res.fields, rows1), RowDicts(res.fields, rows2);
    PositionalExtras(d1, d2, res.fields);
    forall n | Min(|rows1|, |rows2|) < n <= Max(|rows1|, |rows2|) ensures Reported(res.rowDifferences, n) {
      var j := n - 1;
      if |rows2| <= j < |rows1| {
        var i :| 0 <= i < |res.rowDifferences| && res.rowDifferences[i].rowNumber == j + 1 &&
                 OneSided(d1[j], res.fields, Table1) == Ok(res.rowDifferences[i].differences);
      } else {
        var i :| 0 <= i < |res.rowDifferences| && res.rowDifferences[i].rowNumber == j + 1 &&
                 OneSided(d2[j], res.fields, Table2) == Ok(res.rowDifferences[i].differences);
      }
    }
  }

  /** Two tables with the same columns whose two queries fetch the same
      rows compare equal: the row counts agree and nothing is reported.
      Nothing is assumed about any other query. */
  lemma IdenticalTables(db: Database, s: Settings, columns: seq<string>, rows: seq<seq<Value>>)
    requires db.tableFields(s.table1) == Answered(columns) && db.tableFields(s.table2) == Answered(columns)
    requires var fields := GetComparisonFields(db, s).value;
             FetchedRows(db, s, fields, s.table1) == Some(rows) && FetchedRows(db, s, fields, s.table2) == Some(rows)
    requires |s.fields| > 0 || exists f :: f in columns && f !in s.excludeFields
    ensures Expected(db, s).Ok?
    ensures var res := Expected(db, s).value;
            res.table1RowCount == |rows| && res.table2RowCount == |rows| &&
            res.differences == [] && res.rowDifferences == []
  {
    var fields := GetComparisonFields(db, s).value;
    if |s.fields| == 0 {
      var f :| f in columns && f !in s.excludeFields;
      assert f in fields;
    }
    PositionalSame(fields, rows);
    var empty: seq<Difference> := [];
    assert Summaries(s, |rows|, |rows|, 0) == empty + empty;
    assert Expected(db, s) == ExpectedRows(s, fields, rows, rows, columns, columns);
  }

  /** The CSV report holds the header alone exactly when the comparison
      found no row difference. */
  lemma ReportHeaderOnly(db: Database, s: Settings)
    requires Expected(db, s).Ok?
    ensures var rd := Expected(db, s).value.rowDifferences;
            Flatten(rd) == [] <==> rd == []
  {
    var rd := Expected(db, s).value.rowDifferences;
    RowDifferencesOrdered(db, s);
    FlattenEmpty(rd);
    if rd != [] {
      assert rd[0].differences != [];
    }
  }

  /** The report lists the row differences' records in row-number order,
      one per field difference. */
  lemma ReportOrdered(db: Database, s: Settings)
    requires Expected(db, s).Ok?
    ensures var records := Flatten(Expected(db, s).value.rowDifferences);
            forall p, q :: 0 <= p < q < |records| ==> records[p].rowNumber <= records[q].rowNumber
    ensures |Flatten(Expected(db, s).value.rowDifferences)| == FieldDiffCount(Expected(db, s).value.rowDifferences)
  {
    RowDifferencesOrdered(db, s);
    FlattenOrdered(Expected(db, s).value.rowDifferences);
    FlattenLength(Expected(db, s).value.rowDifferences);
  }
}
