/** The CSV report: `generate_csv_report` writes one record per field
    difference under a fixed header. */
module Report {
  import opened Values
  import opened Rows

  /** One data record of the report. */
  datatype CsvRecord = CsvRecord(rowNumber: nat, columnName: string, table1Value: Value, table2Value: Value)

  /** The header, written even when there is nothing else to write. */
  const CsvHeader: seq<string> := ["row_number", "column_name", "table1_value", "table2_value"]

  function RecordOf(rowNumber: nat, diff: FieldDiff): CsvRecord
  {
    CsvRecord(rowNumber, diff.field, diff.table1Value, diff.table2Value)
  }

  /** The records of one row difference, one per field difference. */
  function RecordsOf(rowDiff: RowDiff): (records: seq<CsvRecord>)
    ensures |records| == |rowDiff.differences|
    ensures forall j :: 0 <= j < |records| ==> records[j] == RecordOf(rowDiff.rowNumber, rowDiff.differences[j])
  {
    seq(|rowDiff.differences|, j requires 0 <= j < |rowDiff.differences| => RecordOf(rowDiff.rowNumber, rowDiff.differences[j]))
  }

  /** The report's data records for a list of row differences. */
  function Flatten(rowDiffs: seq<RowDiff>): seq<CsvRecord>
  {
    if rowDiffs == [] then []
    else Flatten(rowDiffs[..|rowDiffs| - 1]) + RecordsOf(rowDiffs[|rowDiffs| - 1])
  }

  /** How many field differences the row differences hold in all. */
  function FieldDiffCount(rowDiffs: seq<RowDiff>): nat
  {
    if rowDiffs == [] then 0
    else FieldDiffCount(rowDiffs[1..]) + |rowDiffs[0].differences|
  }

  lemma {:induction false} FieldDiffCountAppend(rowDiffs: seq<RowDiff>, last: RowDiff)
    ensures FieldDiffCount(rowDiffs + [last]) == FieldDiffCount(rowDiffs) + |last.differences|
  {
    if rowDiffs != [] {
      assert (rowDiffs + [last])[1..] == rowDiffs[1..] + [last];
      FieldDiffCountAppend(rowDiffs[1..], last);
    }
  }

  /** One record per field difference: the report has as many data
      records as the row differences have field differences. */
  lemma {:induction false} FlattenLength(rowDiffs: seq<RowDiff>)
    ensures |Flatten(rowDiffs)| == FieldDiffCount(rowDiffs)
  {
    if rowDiffs != [] {
      var init, last := rowDiffs[..|rowDiffs| - 1], rowDiffs[|rowDiffs| - 1];
      FlattenLength(init);
      assert rowDiffs == init + [last];
      FieldDiffCountAppend(init, last);
    }
  }

  /** Row order, then field order: field difference j of row difference i
      is the record right after those of the row differences before it. */
  lemma {:induction false} FlattenAt(rowDiffs: seq<RowDiff>, i: nat, j: nat)
    requires i < |rowDiffs| && j < |rowDiffs[i].differences|
    ensures FieldDiffCount(rowDiffs[..i]) + j < |Flatten(rowDiffs)|
    ensures Flatten(rowDiffs)[FieldDiffCount(rowDiffs[..i]) + j] ==
              CsvRecord(rowDiffs[i].rowNumber, rowDiffs[i].differences[j].field,
                        rowDiffs[i].differences[j].table1Value, rowDiffs[i].differences[j].table2Value)
  {
    var n := |rowDiffs|;
    var init, last := rowDiffs[..n - 1], rowDiffs[n - 1];
    FlattenLength(init);
    FlattenLength(rowDiffs);
    if i == n - 1 {
      assert rowDiffs[..i] == init;
    } else {
      FlattenAt(init, i, j);
      assert init[..i] == rowDiffs[..i];
      assert init[i] == rowDiffs[i];
    }
  }

  /** The report holds the header alone exactly when no row difference
      holds a field difference; in particular when there are none. */
  lemma {:induction false} FlattenEmpty(rowDiffs: seq<RowDiff>)
    ensures Flatten(rowDiffs) == [] <==> forall i :: 0 <= i < |rowDiffs| ==> rowDiffs[i].differences == []
  {
    if rowDiffs != [] {
      var n := |rowDiffs|;
      FlattenEmpty(rowDiffs[..n - 1]);
      assert forall i :: 0 <= i < n - 1 ==> rowDiffs[..n - 1][i] == rowDiffs[i];
    }
  }

  /** Every record carries the number of one of the row differences. */
  lemma {:induction false} FlattenRowNumbers(rowDiffs: seq<RowDiff>)
    ensures forall p :: 0 <= p < |Flatten(rowDiffs)| ==>
              exists i :: 0 <= i < |rowDiffs| && Flatten(rowDiffs)[p].rowNumber == rowDiffs[i].rowNumber
  {
    if rowDiffs != [] {
      var n := |rowDiffs|;
      var init := rowDiffs[..n - 1];
      FlattenRowNumbers(init);
      assert Flatten(rowDiffs) == Flatten(init) + RecordsOf(rowDiffs[n - 1]);
      forall p | 0 <= p < |Flatten(rowDiffs)|
        ensures exists i :: 0 <= i < n && Flatten(rowDiffs)[p].rowNumber == rowDiffs[i].rowNumber
      {
        if p < |Flatten(init)| {
          var i :| 0 <= i < |init| && Flatten(init)[p].rowNumber == init[i].rowNumber;
          assert init[i] == rowDiffs[i];
        } else {
          assert Flatten(rowDiffs)[p] == RecordsOf(rowDiffs[n - 1])[p - |Flatten(init)|];
        }
      }
    } else {
      assert Flatten(rowDiffs) == [];
    }
  }

  /** With increasing row numbers, the records come in row-number order. */
  lemma {:induction false} FlattenOrdered(rowDiffs: seq<RowDiff>)
    requires forall i, j :: 0 <= i < j < |rowDiffs| ==> rowDiffs[i].rowNumber < rowDiffs[j].rowNumber
    ensures forall p, q :: 0 <= p < q < |Flatten(rowDiffs)| ==> Flatten(rowDiffs)[p].rowNumber <= Flatten(rowDiffs)[q].rowNumber
  {
    if rowDiffs != [] {
      var n := |rowDiffs|;
      var init := rowDiffs[..n - 1];
      var flat := Flatten(rowDiffs);
      FlattenOrdered(init);
      FlattenRowNumbers(init);
      forall p, q | 0 <= p < q < |flat| ensures flat[p].rowNumber <= flat[q].rowNumber {
        if p < |Flatten(init)| && q >= |Flatten(init)| {
          var i :| 0 <= i < |init| && Flatten(init)[p].rowNumber == init[i].rowNumber;
          assert init[i] == rowDiffs[i];
        }
      }
    }
  }
}
