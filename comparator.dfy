/** `TableComparator`: the settings it holds, the comparison it runs over a
    database adapter, and the CSV report it writes from the result. */
module Comparator {
  import opened Values
  import opened Fields
  import opened Query
  import opened Rows
  import opened Report

  /** What an adapter call returns, or the text of the exception it raises. */
  datatype Answer<+T> = Answered(value: T) | Raised(message: string)

  /** The database adapter as the comparator sees it: the column list and
      the primary keys of a table (by the name the comparator holds, which
      may still be unset), the rows a query fetches, and whether the
      adapter is the PostgreSQL one. Each call is a function of its
      argument: the database does not change during a comparison. */
  datatype Database = Database(
    tableFields: Option<string> -> Answer<seq<string>>,
    primaryKeys: Option<string> -> Answer<seq<string>>,
    executeQuery: string -> Answer<seq<seq<Value>>>,
    isPostgres: bool)

  /** The comparator's settings: the two table names, the explicit field
      list, the fields to exclude and the WHERE condition. */
  datatype Settings = Settings(
    table1: Option<string>,
    table2: Option<string>,
    fields: seq<string>,
    excludeFields: seq<string>,
    whereCondition: Option<string>)

  /** The settings of a new comparator. */
  const Initial: Settings := Settings(None, None, [], [], None)

  /** An entry of the result's `differences` list. */
  datatype Difference =
    | FieldMismatch(message: string)
    | RowCount(message: string)
    | MultipleRowDiff(count: nat, message: string)

  /** The dictionary `compare` returns. */
  datatype ComparisonResult = ComparisonResult(
    fields: seq<string>,
    table1RowCount: nat,
    table2RowCount: nat,
    differences: seq<Difference>,
    rowDifferences: seq<RowDiff>,
    table1Fields: seq<string>,
    table2Fields: seq<string>)

  // ---------------------------------------------------------------------
  // Messages

  /** `str(n)` for a natural number. */
  function Digits(n: nat): string
  {
    if n < 10 then ["0123456789"[n]] else Digits(n / 10) + ["0123456789"[n % 10]]
  }

  /** A table name as an f-string shows it: an unset name reads `None`. */
  function Name(table: Option<string>): string
  {
    if table.Some? then table.value else "None"
  }

  /** Every error that leaves `compare` carries this prefix. */
  const ErrorPrefix: string := "对比过程中发生错误: "

  /** The text of the error raised when no field is left to compare. */
  const NoFieldsMessage: string := "没有找到可对比的字段"

  function FieldMismatchMessage(table1: string, table2: string): string
  {
    "表 " + table1 + " 和 " + table2 + " 的字段不完全一致"
  }

  function RowCountMessage(table1: string, count1: nat, table2: string, count2: nat): string
  {
    "行数不同: " + table1 + "有" + Digits(count1) + "行, " + table2 + "有" + Digits(count2) + "行"
  }

  function MultipleRowDiffMessage(count: nat): string
  {
    "共有" + Digits(count) + "行存在数据差异"
  }

  /** `str(e)` for the KeyError raised on a missing column. */
  function KeyErrorText(key: string): string
  {
    "'" + key + "'"
  }

  // ---------------------------------------------------------------------
  // The comparison as a function of the adapter and the settings

  function AsSet(s: seq<string>): set<string>
  {
    set x | x in s
  }

  /** The short-circuit of `compare`: neither an explicit field list nor an
      exclude list is set, and the two tables' column sets differ. */
  predicate FieldsDiffer(s: Settings, fields1: seq<string>, fields2: seq<string>)
  {
    |s.fields| == 0 && |s.excludeFields| == 0 && AsSet(fields1) != AsSet(fields2)
  }

  /** The result `compare` returns on that short-circuit: no fields, no
      rows, a single field-mismatch entry and both column lists. */
  function MismatchResult(s: Settings, fields1: seq<string>, fields2: seq<string>): ComparisonResult
  {
    ComparisonResult([], 0, 0, [FieldMismatch(FieldMismatchMessage(Name(s.table1), Name(s.table2)))], [], fields1, fields2)
  }

  /** The summary entries: the row-count entry when the counts differ, then
      the entry counting the row differences when there are any. */
  function Summaries(s: Settings, count1: nat, count2: nat, diffCount: nat): seq<Difference>
  {
    (if count1 != count2 then [RowCount(RowCountMessage(Name(s.table1), count1, Name(s.table2), count2))] else []) +
    (if diffCount > 0 then [MultipleRowDiff(diffCount, MultipleRowDiffMessage(diffCount))] else [])
  }

  /** `get_comparison_fields`: the explicit field list when one is set;
      otherwise the columns both tables have, less the excluded ones. An
      adapter error is passed on as it is. */
  function GetComparisonFields(db: Database, s: Settings): (r: Result<seq<string>, string>)
    ensures |s.fields| > 0 ==> r == Ok(s.fields)
    ensures |s.fields| == 0 ==>
              (r.Ok? <==> db.tableFields(s.table1).Answered? && db.tableFields(s.table2).Answered?)
    ensures |s.fields| == 0 && db.tableFields(s.table1).Raised? ==> r == Err(db.tableFields(s.table1).message)
    ensures |s.fields| == 0 && db.tableFields(s.table1).Answered? && db.tableFields(s.table2).Raised? ==>
              r == Err(db.tableFields(s.table2).message)
    ensures |s.fields| == 0 && r.Ok? ==>
              Distinct(r.value) &&
              forall f :: f in r.value <==>
                f in db.tableFields(s.table1).value && f in db.tableFields(s.table2).value && f !in s.excludeFields
  {
    if |s.fields| > 0 then Ok(s.fields)
    else match db.tableFields(s.table1)
      case Raised(m) => Err(m)
      case Answered(fields1) =>
        match db.tableFields(s.table2)
        case Raised(m) => Err(m)
        case Answered(fields2) => Ok(ResolveFields(s.fields, s.excludeFields, fields1, fields2))
  }

  /** `build_query`: the SELECT for `table` over `fields`, ordered by the
      primary keys the adapter reports for it. An adapter error is passed
      on as it is. */
  function BuildQuery(db: Database, s: Settings, fields: seq<string>, table: Option<string>): (r: Result<string, string>)
    ensures r.Ok? <==> db.primaryKeys(table).Answered?
    ensures r.Err? ==> r.error == db.primaryKeys(table).message
    ensures r.Ok? ==> r.value == BuildSelect(fields, Name(table), s.whereCondition, db.primaryKeys(table).value, db.isPostgres)
  {
    match db.primaryKeys(table)
    case Raised(m) => Err(m)
    case Answered(keys) => Ok(BuildSelect(fields, Name(table), s.whereCondition, keys, db.isPostgres))
  }

  /** What `compare` returns, or the message of the RuntimeError it raises,
      following its calls in order: both column lists first. */
  function Expected(db: Database, s: Settings): Result<ComparisonResult, string>
  {
    match db.tableFields(s.table1)
    case Raised(m) => Err(ErrorPrefix + m)
    case Answered(fields1) =>
      match db.tableFields(s.table2)
      case Raised(m) => Err(ErrorPrefix + m)
      case Answered(fields2) => ExpectedFrom(db, s, fields1, fields2)
  }

  /** The rest of `compare` once both column lists are known: the
      short-circuit on differing column sets, the comparison fields, both
      queries and both fetches. */
  function ExpectedFrom(db: Database, s: Settings, fields1: seq<string>, fields2: seq<string>): Result<ComparisonResult, string>
  {
    if FieldsDiffer(s, fields1, fields2) then Ok(MismatchResult(s, fields1, fields2))
    else match GetComparisonFields(db, s)
    case Err(m) => Err(ErrorPrefix + m)
    case Ok(fields) =>
    if fields == [] then Err(ErrorPrefix + NoFieldsMessage)
    else match BuildQuery(db, s, fields, s.table1)
    case Err(m) => Err(ErrorPrefix + m)
    case Ok(query1) =>
    match BuildQuery(db, s, fields, s.table2)
    case Err(m) => Err(ErrorPrefix + m)
    case Ok(query2) =>
    match db.executeQuery(query1)
    case Raised(m) => Err(ErrorPrefix + m)
    case Answered(rows1) =>
    match db.executeQuery(query2)
    case Raised(m) => Err(ErrorPrefix + m)
    case Answered(rows2) => ExpectedRows(s, fields, rows1, rows2, fields1, fields2)
  }

  /** The last part of `compare`, once both row lists are fetched: the
      positional row comparison and the summary entries. */
  function ExpectedRows(s: Settings, fields: seq<string>, rows1: seq<seq<Value>>, rows2: seq<seq<Value>>,
                        fields1: seq<string>, fields2: seq<string>): Result<ComparisonResult, string>
  {
    match Positional(RowDicts(fields, rows1), RowDicts(fields, rows2), fields)
    case Err(k) => Err(ErrorPrefix + KeyErrorText(k))
    case Ok(rowDiffs) =>
      Ok(ComparisonResult(fields, |rows1|, |rows2|, Summaries(s, |rows1|, |rows2|, |rowDiffs|), rowDiffs, fields1, fields2))
  }

  /** The first loop of `compare`: the rows both tables have, position by
      position, keeping each row difference and counting it. */
  method PairedRows(dictRows1: seq<Dict>, dictRows2: seq<Dict>)
    returns (r: Result<seq<RowDiff>, string>, diffCount: nat)
    ensures r == Paired(dictRows1, dictRows2, Min(|dictRows1|, |dictRows2|))
    ensures r.Ok? ==> diffCount == |r.value|
  {
    var rowDifferences: seq<RowDiff> := [];
    diffCount := 0;
    var i: nat := 0;
    while i < Min(|dictRows1|, |dictRows2|)
      invariant i <= Min(|dictRows1|, |dictRows2|)
      invariant Paired(dictRows1, dictRows2, i) == Ok(rowDifferences)
      invariant diffCount == |rowDifferences|
    {
      var rowDiff := CompareRows(dictRows1[i], dictRows2[i], i + 1);
      if rowDiff.Err? {
        PairedErrorSticks(dictRows1, dictRows2, i + 1, Min(|dictRows1|, |dictRows2|));
        return Err(rowDiff.error), diffCount;
      }
      if rowDiff.value.Some? {
        diffCount := diffCount + 1;
        rowDifferences := rowDifferences + [rowDiff.value.value];
      }
      i := i + 1;
    }
    r := Ok(rowDifferences);
  }

  /** The second and third loops of `compare`: every row of one table from
      position `lo` on is a row difference showing all its compared fields
      against None, counted one by one. */
  method ExtraRows(dictRows: seq<Dict>, comparisonFields: seq<string>, lo: nat, side: Side)
    returns (r: Result<seq<RowDiff>, string>, diffCount: nat)
    ensures r == Extras(dictRows, comparisonFields, lo, |dictRows|, side)
    ensures r.Ok? ==> diffCount == |r.value|
  {
    var rowDifferences: seq<RowDiff> := [];
    diffCount := 0;
    var i: nat := lo;
    while i < |dictRows|
      invariant lo <= i
      invariant i <= |dictRows| ==> Extras(dictRows, comparisonFields, lo, i, side) == Ok(rowDifferences)
      invariant i > |dictRows| ==> i == lo && rowDifferences == []
      invariant diffCount == |rowDifferences|
    {
      var shown := OneSided(dictRows[i], comparisonFields, side);
      if shown.Err? {
        ExtrasErrorSticks(dictRows, comparisonFields, lo, i + 1, |dictRows|, side);
        return Err(shown.error), diffCount;
      }
      rowDifferences := rowDifferences + [RowDiff(i + 1, shown.value)];
      diffCount := diffCount + 1;
      i := i + 1;
    }
    r := Ok(rowDifferences);
  }

  /** The three loops of `compare` together: the row differences of two
      fetched row lists, counting every entry. A missing column comes back
      as its name. */
  method CompareRowLists(dictRows1: seq<Dict>, dictRows2: seq<Dict>, comparisonFields: seq<string>)
    returns (r: Result<seq<RowDiff>, string>, diffCount: nat)
    ensures r == Positional(dictRows1, dictRows2, comparisonFields)
    ensures r.Ok? ==> diffCount == |r.value|
  {
    var paired, pairedCount := PairedRows(dictRows1, dictRows2);
    if paired.Err? {
      return Err(paired.error), pairedCount;
    }
    var extra1, extra1Count := ExtraRows(dictRows1, comparisonFields, |dictRows2|, Table1);
    if extra1.Err? {
      return Err(extra1.error), pairedCount + extra1Count;
    }
    var extra2, extra2Count := ExtraRows(dictRows2, comparisonFields, |dictRows1|, Table2);
    if extra2.Err? {
      return Err(extra2.error), pairedCount + extra1Count + extra2Count;
    }
    r := Ok(paired.value + extra1.value + extra2.value);
    diffCount := pairedCount + extra1Count + extra2Count;
  }

  /** The end of `compare`, once both row lists are fetched: the rows
      become dictionaries keyed by the comparison fields, a row-count entry
      is added when the counts differ, the three row loops run and the
      counting entry follows when anything differs. */
  method CompareFetched(s: Settings, comparisonFields: seq<string>, rows1: seq<seq<Value>>, rows2: seq<seq<Value>>,
                        fields1: seq<string>, fields2: seq<string>)
    returns (r: Result<ComparisonResult, string>)
    ensures r == ExpectedRows(s, comparisonFields, rows1, rows2, fields1, fields2)
  {
    var dictRows1 := RowDicts(comparisonFields, rows1);
    var dictRows2 := RowDicts(comparisonFields, rows2);

    var differences: seq<Difference> := [];
    if |rows1| != |rows2| {
      differences := differences + [RowCount(RowCountMessage(Name(s.table1), |rows1|, Name(s.table2), |rows2|))];
    }
    var rowDifferences, diffCount := CompareRowLists(dictRows1, dictRows2, comparisonFields);
    if rowDifferences.Err? {
      return Err(ErrorPrefix + KeyErrorText(rowDifferences.error));
    }
    if diffCount > 0 {
      differences := differences + [MultipleRowDiff(diffCount, MultipleRowDiffMessage(diffCount))];
    }
    assert differences == Summaries(s, |rows1|, |rows2|, diffCount);
    r := Ok(ComparisonResult(comparisonFields, |rows1|, |rows2|, differences, rowDifferences.value, fields1, fields2));
  }

  // ---------------------------------------------------------------------
  // The comparator object

  class TableComparator {
    const db: Database
    var table1: Option<string>
    var table2: Option<string>
    var fields: seq<string>
    var excludeFields: seq<string>
    var whereCondition: Option<string>

    /** The current settings. */
    function Current(): Settings
      reads this
    {
      Settings(table1, table2, fields, excludeFields, whereCondition)
    }

    constructor (db: Database)
      ensures this.db == db
      ensures Current() == Initial
    {
      this.db := db;
      table1 := None;
      table2 := None;
      fields := [];
      excludeFields := [];
      whereCondition := None;
    }

    method SetTables(table1: string, table2: string)
      modifies this
      ensures Current() == old(Current()).(table1 := Some(table1), table2 := Some(table2))
    {
      this.table1 := Some(table1);
      this.table2 := Some(table2);
    }

    method SetFields(fields: seq<string>)
      modifies this
      ensures Current() == old(Current()).(fields := fields)
    {
      this.fields := fields;
    }

    method SetExcludeFields(excludeFields: seq<string>)
      modifies this
      ensures Current() == old(Current()).(excludeFields := excludeFields)
    {
      this.excludeFields := excludeFields;
    }

    method SetWhereCondition(whereCondition: string)
      modifies this
      ensures Current() == old(Current()).(whereCondition := Some(whereCondition))
    {
      this.whereCondition := Some(whereCondition);
    }

    /** `compare`: runs the comparison step by step, with the three row
        loops of the source, and returns what `Expected` describes. Any
        failure comes back as an error carrying the common prefix. */
    method Compare() returns (r: Result<ComparisonResult, string>)
      ensures r == Expected(db, Current())
      ensures r.Err? ==> ErrorPrefix <= r.error
    {
      var answer1 := db.tableFields(table1);
      if answer1.Raised? {
        return Err(ErrorPrefix + answer1.message);
      }
      var answer2 := db.tableFields(table2);
      if answer2.Raised? {
        return Err(ErrorPrefix + answer2.message);
      }
      r := CompareColumns(answer1.value, answer2.value);
    }

    /** The part of `compare` after both column lists are read: the
        short-circuit on differing column sets, the comparison fields, both
        queries and both fetches, then the row comparison. */
    method CompareColumns(fields1: seq<string>, fields2: seq<string>) returns (r: Result<ComparisonResult, string>)
      requires db.tableFields(table1) == Answered(fields1) && db.tableFields(table2) == Answered(fields2)
      ensures r == ExpectedFrom(db, Current(), fields1, fields2)
    {
      if |fields| == 0 && |excludeFields| == 0 && AsSet(fields1) != AsSet(fields2) {
        return Ok(MismatchResult(Current(), fields1, fields2));
      }
      var comparisonFields := GetComparisonFields(db, Current()).value;
      if |comparisonFields| == 0 {
        return Err(ErrorPrefix + NoFieldsMessage);
      }
      var query1 := BuildQuery(db, Current(), comparisonFields, table1);
      if query1.Err? {
        return Err(ErrorPrefix + query1.error);
      }
      var query2 := BuildQuery(db, Current(), comparisonFields, table2);
      if query2.Err? {
        return Err(ErrorPrefix + query2.error);
      }
      var fetched1 := db.executeQuery(query1.value);
      if fetched1.Raised? {
        return Err(ErrorPrefix + fetched1.message);
      }
      var fetched2 := db.executeQuery(query2.value);
      if fetched2.Raised? {
        return Err(ErrorPrefix + fetched2.message);
      }
      r := CompareFetched(Current(), comparisonFields, fetched1.value, fetched2.value, fields1, fields2);
    }

    /** `generate_csv_report`, less the file: the header, then one record per
        field difference, row difference by row difference. */
    method GenerateCsvReport(result: ComparisonResult) returns (header: seq<string>, records: seq<CsvRecord>)
      ensures header == CsvHeader
      ensures records == Flatten(result.rowDifferences)
    {
      header := CsvHeader;
      records := [];
      var i := 0;
      while i < |result.rowDifferences|
        invariant i <= |result.rowDifferences|
        invariant records == Flatten(result.rowDifferences[..i])
      {
        var rowDiff := result.rowDifferences[i];
        var j := 0;
        while j < |rowDiff.differences|
          invariant j <= |rowDiff.differences|
          invariant records == Flatten(result.rowDifferences[..i]) + RecordsOf(rowDiff)[..j]
        {
          var diff := rowDiff.differences[j];
          records := records + [RecordOf(rowDiff.rowNumber, diff)];
          j := j + 1;
        }
        assert result.rowDifferences[..i + 1][..i] == result.rowDifferences[..i];
        i := i + 1;
      }
      assert result.rowDifferences[..i] == result.rowDifferences;
    }
  }
}
