/** Row-level comparison: `_compare_rows`, and the positional matching that
    `compare` runs over the two fetched row lists. A `string` error is the
    name of a column that a row dictionary lacks: Python raises KeyError
    there. */
module Rows {
  import opened Values

  /** `{'field': ..., 'table1_value': ..., 'table2_value': ...}` */
  datatype FieldDiff = FieldDiff(field: string, table1Value: Value, table2Value: Value)

  /** `{'row_number': ..., 'differences': [...]}` */
  datatype RowDiff = RowDiff(rowNumber: nat, differences: seq<FieldDiff>)

  /** The side that an extra row comes from. */
  datatype Side = Table1 | Table2

  /** The loop of `_compare_rows`: walk the keys of `row1` in order, read
      the same key of `row2` (failing on the first one it lacks) and keep
      every field whose two values differ. */
  function FieldDiffs(row1: Dict, row2: Dict): Result<seq<FieldDiff>, string>
  {
    if row1 == [] then Ok([])
    else match Lookup(row2, row1[0].key)
      case None => Err(row1[0].key)
      case Some(value2) =>
        match FieldDiffs(row1[1..], row2)
        case Err(k) => Err(k)
        case Ok(rest) =>
          var here := if row1[0].value != value2 then [FieldDiff(row1[0].key, row1[0].value, value2)] else [];
          Ok(here + rest)
  }

  /** `_compare_rows(row1, row2, row_number)`: None when no field differs,
      else the row number with the differing fields. */
  function CompareRows(row1: Dict, row2: Dict, rowNumber: nat): Result<Option<RowDiff>, string>
  {
    match FieldDiffs(row1, row2)
    case Err(k) => Err(k)
    case Ok(diffs) => Ok(if diffs == [] then None else Some(RowDiff(rowNumber, diffs)))
  }

  /** Every field of `row1` reads the same in `row2`. */
  predicate SameRow(row1: Dict, row2: Dict)
  {
    forall i :: 0 <= i < |row1| ==> Lookup(row2, row1[i].key) == Some(row1[i].value)
  }

  /** The first loop of `compare`: rows at the same position of the two
      lists, for the first `k` positions, numbered from 1. */
  function Paired(rows1: seq<Dict>, rows2: seq<Dict>, k: nat): Result<seq<RowDiff>, string>
    requires k <= |rows1| && k <= |rows2|
  {
    if k == 0 then Ok([])
    else match Paired(rows1, rows2, k - 1)
      case Err(e) => Err(e)
      case Ok(found) =>
        match CompareRows(rows1[k - 1], rows2[k - 1], k)
        case Err(e) => Err(e)
        case Ok(None) => Ok(found)
        case Ok(Some(diff)) => Ok(found + [diff])
  }

  /** One shown field of an extra row: its own value, and `None` for the
      side that has no such row. */
  function Shown(field: string, value: Value, side: Side): FieldDiff
  {
    if side == Table1 then FieldDiff(field, value, Null) else FieldDiff(field, Null, value)
  }

  /** The comprehension over every comparison field for an extra row,
      failing on the first field the row lacks. */
  function OneSided(row: Dict, fields: seq<string>, side: Side): Result<seq<FieldDiff>, string>
  {
    if fields == [] then Ok([])
    else match Lookup(row, fields[0])
      case None => Err(fields[0])
      case Some(v) =>
        match OneSided(row, fields[1..], side)
        case Err(e) => Err(e)
        case Ok(rest) => Ok([Shown(fields[0], v, side)] + rest)
  }

  /** The trailing loops of `compare`: `for i in range(lo, hi)`, one entry
      numbered `i + 1` for each row of the longer list past the other's end. */
  function Extras(rows: seq<Dict>, fields: seq<string>, lo: nat, hi: nat, side: Side): Result<seq<RowDiff>, string>
    requires hi <= |rows|
  {
    if hi <= lo then Ok([])
    else match Extras(rows, fields, lo, hi - 1, side)
      case Err(e) => Err(e)
      case Ok(found) =>
        match OneSided(rows[hi - 1], fields, side)
        case Err(e) => Err(e)
        case Ok(diffs) => Ok(found + [RowDiff(hi, diffs)])
  }

  /** All row differences of a comparison, in the order `compare` collects
      them: the differing paired rows, then the extra rows of table 1, then
      those of table 2 (at most one of the two is non-empty). */
  function Positional(rows1: seq<Dict>, rows2: seq<Dict>, fields: seq<string>): Result<seq<RowDiff>, string>
  {
    match Paired(rows1, rows2, Min(|rows1|, |rows2|))
    case Err(e) => Err(e)
    case Ok(paired) =>
      match Extras(rows1, fields, |rows2|, |rows1|, Table1)
      case Err(e) => Err(e)
      case Ok(extra1) =>
        match Extras(rows2, fields, |rows1|, |rows2|, Table2)
        case Err(e) => Err(e)
        case Ok(extra2) => Ok(paired + extra1 + extra2)
  }

  // ---------------------------------------------------------------------
  // Comparing two rows

  /** `_compare_rows` fails exactly when `row1` has a key that `row2` lacks,
      and then it names such a key. */
  lemma {:induction false} FieldDiffsDefined(row1: Dict, row2: Dict)
    ensures FieldDiffs(row1, row2).Ok? <==> forall i :: 0 <= i < |row1| ==> Lookup(row2, row1[i].key).Some?
    ensures FieldDiffs(row1, row2).Err? ==>
              Lookup(row2, FieldDiffs(row1, row2).error) == None &&
              exists i :: 0 <= i < |row1| && row1[i].key == FieldDiffs(row1, row2).error
  {
    if row1 != [] {
      FieldDiffsDefined(row1[1..], row2);
      assert forall i :: 0 < i < |row1| ==> row1[i] == row1[1..][i - 1];
      if FieldDiffs(row1, row2).Err? && Lookup(row2, row1[0].key).Some? {
        var i :| 0 <= i < |row1[1..]| && row1[1..][i].key == FieldDiffs(row1, row2).error;
        assert row1[i + 1].key == FieldDiffs(row1, row2).error;
      }
    }
  }

  /** Every listed difference is a field of `row1`, with its value there
      and its different value in `row2`. */
  lemma {:induction false} FieldDiffsSound(row1: Dict, row2: Dict)
    requires DistinctKeys(row1)
    requires FieldDiffs(row1, row2).Ok?
    ensures forall d :: d in FieldDiffs(row1, row2).value ==>
              Lookup(row1, d.field) == Some(d.table1Value) &&
              Lookup(row2, d.field) == Some(d.table2Value) &&
              d.table1Value != d.table2Value
  {
    if row1 != [] {
      FieldDiffsSound(row1[1..], row2);
      // a field listed for the rest is a key of the rest, so not row1's first key
      assert forall d :: d in FieldDiffs(row1[1..], row2).value ==> d.field != row1[0].key;
    }
  }

  /** Every field of `row1` whose value `row2` does not share is listed. */
  lemma {:induction false} FieldDiffsComplete(row1: Dict, row2: Dict)
    requires FieldDiffs(row1, row2).Ok?
    ensures forall i :: 0 <= i < |row1| && Lookup(row2, row1[i].key) != Some(row1[i].value) ==>
              exists d :: d in FieldDiffs(row1, row2).value && d.field == row1[i].key
  {
    if row1 != [] {
      var rest := row1[1..];
      FieldDiffsComplete(rest, row2);
      var diffs := FieldDiffs(row1, row2).value;
      var tail := FieldDiffs(rest, row2).value;
      assert forall d :: d in tail ==> d in diffs;
      forall i | 0 <= i < |row1| && Lookup(row2, row1[i].key) != Some(row1[i].value)
        ensures exists d :: d in diffs && d.field == row1[i].key
      {
        if i == 0 {
          assert diffs[0].field == row1[0].key;
        } else {
          assert row1[i] == rest[i - 1];
        }
      }
    }
  }

  /** One step of the field loop: the differences of `row1` are those of
      its remaining keys, with at most one for its first key in front. */
  lemma FieldDiffsStep(row1: Dict, row2: Dict)
    requires row1 != [] && FieldDiffs(row1, row2).Ok?
    ensures FieldDiffs(row1[1..], row2).Ok?
    ensures var diffs, tail := FieldDiffs(row1, row2).value, FieldDiffs(row1[1..], row2).value;
            |tail| <= |diffs| <= |tail| + 1 &&
            (forall k :: |diffs| - |tail| <= k < |diffs| ==> diffs[k] == tail[k - (|diffs| - |tail|)]) &&
            (|diffs| > |tail| ==> diffs[0].field == row1[0].key)
  {
  }

  /** Every difference names a key of `row1`. */
  lemma FieldDiffKey(row1: Dict, row2: Dict, k: nat)
    requires DistinctKeys(row1) && FieldDiffs(row1, row2).Ok? && k < |FieldDiffs(row1, row2).value|
    ensures Lookup(row1, FieldDiffs(row1, row2).value[k].field).Some?
  {
    FieldDiffsSound(row1, row2);
    assert FieldDiffs(row1, row2).value[k] in FieldDiffs(row1, row2).value;
  }

  /** A field the remaining keys hold is not `row1`'s first key, and sits
      one place further on in `row1`. */
  lemma KeyIndexRest(row1: Dict, field: string)
    requires DistinctKeys(row1) && row1 != [] && Lookup(row1[1..], field).Some?
    ensures field != row1[0].key && Lookup(row1, field).Some?
    ensures KeyIndex(row1, field) == 1 + KeyIndex(row1[1..], field)
  {
  }

  /** Two differences in list order belong to fields in `row1`'s key order. */
  lemma {:induction false} FieldDiffsOrderedAt(row1: Dict, row2: Dict, i: nat, j: nat)
    requires DistinctKeys(row1)
    requires FieldDiffs(row1, row2).Ok?
    requires i < j < |FieldDiffs(row1, row2).value|
    ensures Lookup(row1, FieldDiffs(row1, row2).value[i].field).Some?
    ensures Lookup(row1, FieldDiffs(row1, row2).value[j].field).Some?
    ensures KeyIndex(row1, FieldDiffs(row1, row2).value[i].field) < KeyIndex(row1, FieldDiffs(row1, row2).value[j].field)
  {
    FieldDiffsStep(row1, row2);
    var rest := row1[1..];
    var diffs, tail := FieldDiffs(row1, row2).value, FieldDiffs(rest, row2).value;
    var h := |diffs| - |tail|;
    FieldDiffKey(rest, row2, j - h);
    KeyIndexRest(row1, tail[j - h].field);
    if i < h {
      assert diffs[i].field == row1[0].key;
    } else {
      FieldDiffsOrderedAt(rest, row2, i - h, j - h);
      KeyIndexRest(row1, tail[i - h].field);
    }
  }

  /** The differences follow the order of `row1`'s keys, each field once. */
  lemma {:induction false} FieldDiffsOrdered(row1: Dict, row2: Dict)
    requires DistinctKeys(row1)
    requires FieldDiffs(row1, row2).Ok?
    ensures forall i :: 0 <= i < |FieldDiffs(row1, row2).value| ==>
              Lookup(row1, FieldDiffs(row1, row2).value[i].field).Some?
    ensures forall i, j :: 0 <= i < j < |FieldDiffs(row1, row2).value| ==>
              KeyIndex(row1, FieldDiffs(row1, row2).value[i].field) < KeyIndex(row1, FieldDiffs(row1, row2).value[j].field)
  {
    var diffs := FieldDiffs(row1, row2).value;
    FieldDiffsSound(row1, row2);
    forall i | 0 <= i < |diffs| ensures Lookup(row1, diffs[i].field).Some? {
      assert diffs[i] in diffs;
    }
    forall i, j | 0 <= i < j < |diffs|
      ensures KeyIndex(row1, diffs[i].field) < KeyIndex(row1, diffs[j].field)
    {
      FieldDiffsOrderedAt(row1, row2, i, j);
    }
  }

  /** A positional result has an entry for every extra row, so at least as
      many entries as the row counts differ by. */
  lemma PositionalCoversExtras(rows1: seq<Dict>, rows2: seq<Dict>, fields: seq<string>)
    requires Positional(rows1, rows2, fields).Ok?
    ensures |Positional(rows1, rows2, fields).value| >= |rows1| - |rows2|
    ensures |Positional(rows1, rows2, fields).value| >= |rows2| - |rows1|
  {
    PositionalParts(rows1, rows2, fields);
    ExtrasSpec(rows1, fields, |rows2|, |rows1|, Table1);
    ExtrasSpec(rows2, fields, |rows1|, |rows2|, Table2);
  }

  /** `_compare_rows` returns None exactly when every field of `row1` reads
      the same in `row2`; otherwise it returns the given row number with a
      non-empty list of differences. */
  lemma CompareRowsSpec(row1: Dict, row2: Dict, rowNumber: nat)
    requires DistinctKeys(row1)
    requires CompareRows(row1, row2, rowNumber).Ok?
    ensures CompareRows(row1, row2, rowNumber).value.None? <==> SameRow(row1, row2)
    ensures CompareRows(row1, row2, rowNumber).value.Some? ==>
              var diff := CompareRows(row1, row2, rowNumber).value.value;
              diff.rowNumber == rowNumber && diff.differences == FieldDiffs(row1, row2).value &&
              |diff.differences| > 0
  {
    FieldDiffsSound(row1, row2);
    FieldDiffsComplete(row1, row2);
    var diffs := FieldDiffs(row1, row2).value;
    if diffs != [] {
      var d := diffs[0];
      assert d in diffs;
      var i := KeyIndex(row1, d.field);
      assert Lookup(row2, row1[i].key) != Some(row1[i].value);
    }
  }

  /** A row compared with a row holding all of its entries has no
      differences; in particular a row compared with itself. */
  lemma {:induction false} FieldDiffsSelf(row: Dict, whole: Dict)
    requires forall i :: 0 <= i < |row| ==> Lookup(whole, row[i].key) == Some(row[i].value)
    ensures FieldDiffs(row, whole) == Ok([])
  {
    if row != [] {
      assert Lookup(whole, row[0].key) == Some(row[0].value);
      assert forall i :: 0 < i < |row| ==> row[i] == row[1..][i - 1];
      FieldDiffsSelf(row[1..], whole);
      var empty: seq<FieldDiff> := [];
      assert FieldDiffs(row, whole) == Ok(empty + empty);
      assert empty + empty == empty;
    }
  }

  // ---------------------------------------------------------------------
  // Positional matching

  /** Once a row comparison fails, the whole loop fails with that error. */
  lemma {:induction false} PairedErrorSticks(rows1: seq<Dict>, rows2: seq<Dict>, k: nat, k': nat)
    requires k <= k' <= |rows1| && k' <= |rows2|
    requires Paired(rows1, rows2, k).Err?
    ensures Paired(rows1, rows2, k') == Paired(rows1, rows2, k)
  {
    if k < k' {
      PairedErrorSticks(rows1, rows2, k, k' - 1);
    }
  }

  /** Once an extra row lacks a field, the whole loop fails with that error. */
  lemma {:induction false} ExtrasErrorSticks(rows: seq<Dict>, fields: seq<string>, lo: nat, hi: nat, hi': nat, side: Side)
    requires hi <= hi' <= |rows|
    requires Extras(rows, fields, lo, hi, side).Err?
    ensures Extras(rows, fields, lo, hi', side) == Extras(rows, fields, lo, hi, side)
  {
    if hi < hi' {
      ExtrasErrorSticks(rows, fields, lo, hi, hi' - 1, side);
    }
  }

  /** The paired entries carry strictly increasing numbers in 1..k, each the
      entry `_compare_rows` returns for the rows at that position. */
  lemma {:induction false} PairedOrder(rows1: seq<Dict>, rows2: seq<Dict>, k: nat)
    requires k <= |rows1| && k <= |rows2|
    requires Paired(rows1, rows2, k).Ok?
    ensures var found := Paired(rows1, rows2, k).value;
            (forall i, j :: 0 <= i < j < |found| ==> found[i].rowNumber < found[j].rowNumber) &&
            (forall i :: 0 <= i < |found| ==>
               1 <= found[i].rowNumber <= k &&
               CompareRows(rows1[found[i].rowNumber - 1], rows2[found[i].rowNumber - 1], found[i].rowNumber)
                 == Ok(Some(found[i])))
  {
    if k > 0 {
      PairedOrder(rows1, rows2, k - 1);
    }
  }

  /** Position j (0-based) below k has a paired entry exactly when
      `_compare_rows` finds a difference there. */
  lemma {:induction false} PairedAt(rows1: seq<Dict>, rows2: seq<Dict>, k: nat, j: nat)
    requires j < k <= |rows1| && k <= |rows2|
    requires Paired(rows1, rows2, k).Ok?
    ensures CompareRows(rows1[j], rows2[j], j + 1).Ok?
    ensures CompareRows(rows1[j], rows2[j], j + 1).value.Some? <==>
              exists i :: 0 <= i < |Paired(rows1, rows2, k).value| &&
                          Paired(rows1, rows2, k).value[i].rowNumber == j + 1
  {
    var prev := Paired(rows1, rows2, k - 1).value;
    var found := Paired(rows1, rows2, k).value;
    var last := CompareRows(rows1[k - 1], rows2[k - 1], k);
    var tail: seq<RowDiff> := if last.value.Some? then [last.value.value] else [];
    assert found == prev + tail;
    assert forall i :: 0 <= i < |tail| ==> tail[i].rowNumber == k;
    if j < k - 1 {
      PairedAt(rows1, rows2, k - 1, j);
      if i :| 0 <= i < |found| && found[i].rowNumber == j + 1 {
        assert i < |prev| && prev[i].rowNumber == j + 1;
      }
      if CompareRows(rows1[j], rows2[j], j + 1).value.Some? {
        var i :| 0 <= i < |prev| && prev[i].rowNumber == j + 1;
        assert found[i] == prev[i];
      }
    } else {
      PairedOrder(rows1, rows2, k - 1);
      if i :| 0 <= i < |found| && found[i].rowNumber == j + 1 {
        assert i == |prev|;
      }
      if last.value.Some? {
        assert found[|prev|] == tail[0];
      }
    }
  }

  /** `PairedAt` for every position below k. */
  lemma PairedCoverage(rows1: seq<Dict>, rows2: seq<Dict>, k: nat)
    requires k <= |rows1| && k <= |rows2|
    requires Paired(rows1, rows2, k).Ok?
    ensures var found := Paired(rows1, rows2, k).value;
            forall j :: 0 <= j < k ==>
              CompareRows(rows1[j], rows2[j], j + 1).Ok? &&
              (CompareRows(rows1[j], rows2[j], j + 1).value.Some? <==>
                 exists i :: 0 <= i < |found| && found[i].rowNumber == j + 1)
  {
    forall j | 0 <= j < k
      ensures CompareRows(rows1[j], rows2[j], j + 1).Ok? &&
              (CompareRows(rows1[j], rows2[j], j + 1).value.Some? <==>
                 exists i :: 0 <= i < |Paired(rows1, rows2, k).value| &&
                             Paired(rows1, rows2, k).value[i].rowNumber == j + 1)
    {
      PairedAt(rows1, rows2, k, j);
    }
  }

  /** An extra row lists every comparison field, in order, with its own
      value and `None` for the other side; it fails only on a missing field. */
  lemma {:induction false} OneSidedSpec(row: Dict, fields: seq<string>, side: Side)
    ensures OneSided(row, fields, side).Ok? <==> forall f :: f in fields ==> Lookup(row, f).Some?
    ensures OneSided(row, fields, side).Ok? ==>
              var diffs := OneSided(row, fields, side).value;
              |diffs| == |fields| &&
              forall j :: 0 <= j < |fields| ==> diffs[j] == Shown(fields[j], Lookup(row, fields[j]).value, side)
  {
    if fields != [] {
      OneSidedSpec(row, fields[1..], side);
      assert forall j :: 0 < j < |fields| ==> fields[j] == fields[1..][j - 1];
      assert forall f :: f in fields <==> f == fields[0] || f in fields[1..];
      if Lookup(row, fields[0]).None? {
        assert fields[0] in fields;
      } else if OneSided(row, fields[1..], side).Err? {
        var f :| f in fields[1..] && Lookup(row, f).None?;
        assert f in fields;
      } else {
        assert OneSided(row, fields, side).Ok?;
      }
    }
  }

  /** The extra rows are numbered lo+1, ..., hi in order, each listing its
      own row's values for every comparison field. */
  lemma {:induction false} ExtrasSpec(rows: seq<Dict>, fields: seq<string>, lo: nat, hi: nat, side: Side)
    requires hi <= |rows|
    requires Extras(rows, fields, lo, hi, side).Ok?
    ensures var found := Extras(rows, fields, lo, hi, side).value;
            |found| == if hi <= lo then 0 else hi - lo
    ensures var found := Extras(rows, fields, lo, hi, side).value;
            forall i :: 0 <= i < |found| ==>
              found[i].rowNumber == lo + i + 1 &&
              OneSided(rows[lo + i], fields, side) == Ok(found[i].differences)
  {
    if lo < hi {
      ExtrasSpec(rows, fields, lo, hi - 1, side);
    }
  }

  /** Extras succeed when every row reached has every comparison field. */
  lemma {:induction false} ExtrasDefined(rows: seq<Dict>, fields: seq<string>, lo: nat, hi: nat, side: Side)
    requires hi <= |rows|
    requires forall i, f :: lo <= i < hi && f in fields ==> Lookup(rows[i], f).Some?
    ensures Extras(rows, fields, lo, hi, side).Ok?
  {
    if lo < hi {
      ExtrasDefined(rows, fields, lo, hi - 1, side);
      OneSidedSpec(rows[hi - 1], fields, side);
    }
  }

  /** Paired rows succeed when each row of `rows2` has every key of the row
      of `rows1` at the same position. */
  lemma {:induction false} PairedDefined(rows1: seq<Dict>, rows2: seq<Dict>, k: nat)
    requires k <= |rows1| && k <= |rows2|
    requires forall j, i :: 0 <= j < k && 0 <= i < |rows1[j]| ==> Lookup(rows2[j], rows1[j][i].key).Some?
    ensures Paired(rows1, rows2, k).Ok?
  {
    if k > 0 {
      PairedDefined(rows1, rows2, k - 1);
      FieldDiffsDefined(rows1[k - 1], rows2[k - 1]);
    }
  }

  function Max(a: nat, b: nat): nat { if a <= b then b else a }

  /** The three parts of a positional result and where each sits. */
  lemma PositionalParts(rows1: seq<Dict>, rows2: seq<Dict>, fields: seq<string>)
    requires Positional(rows1, rows2, fields).Ok?
    ensures Paired(rows1, rows2, Min(|rows1|, |rows2|)).Ok?
    ensures Extras(rows1, fields, |rows2|, |rows1|, Table1).Ok?
    ensures Extras(rows2, fields, |rows1|, |rows2|, Table2).Ok?
    ensures Positional(rows1, rows2, fields).value ==
              Paired(rows1, rows2, Min(|rows1|, |rows2|)).value +
              Extras(rows1, fields, |rows2|, |rows1|, Table1).value +
              Extras(rows2, fields, |rows1|, |rows2|, Table2).value
  {
  }

  /** The number of entry i of a positional result: a paired entry carries
      a number up to the shorter row count, in increasing order, and the
      extra entries after them are numbered on from there one by one. */
  lemma PositionalNumberAt(rows1: seq<Dict>, rows2: seq<Dict>, fields: seq<string>, i: nat)
    requires Positional(rows1, rows2, fields).Ok?
    requires i < |Positional(rows1, rows2, fields).value|
    ensures Paired(rows1, rows2, Min(|rows1|, |rows2|)).Ok?
    ensures var found := Positional(rows1, rows2, fields).value;
            var m := Min(|rows1|, |rows2|);
            var p := |Paired(rows1, rows2, m).value|;
            (i < p ==> found[i] == Paired(rows1, rows2, m).value[i] && 1 <= found[i].rowNumber <= m) &&
            (i >= p ==> found[i].rowNumber == m + (i - p) + 1 <= Max(|rows1|, |rows2|))
  {
    PositionalParts(rows1, rows2, fields);
    var m := Min(|rows1|, |rows2|);
    var paired := Paired(rows1, rows2, m).value;
    var extra1 := Extras(rows1, fields, |rows2|, |rows1|, Table1).value;
    var extra2 := Extras(rows2, fields, |rows1|, |rows2|, Table2).value;
    var found := Positional(rows1, rows2, fields).value;
    assert found == paired + extra1 + extra2;
    ExtrasSpec(rows1, fields, |rows2|, |rows1|, Table1);
    ExtrasSpec(rows2, fields, |rows1|, |rows2|, Table2);
    if i < |paired| {
      PairedOrder(rows1, rows2, m);
      assert found[i] == paired[i];
    } else if i < |paired| + |extra1| {
      assert found[i] == extra1[i - |paired|];
    } else {
      assert found[i] == extra2[i - |paired| - |extra1|];
    }
  }

  /** Row numbers in a positional result strictly increase and lie between
      1 and the longer row count. */
  lemma PositionalOrder(rows1: seq<Dict>, rows2: seq<Dict>, fields: seq<string>)
    requires Positional(rows1, rows2, fields).Ok?
    ensures var found := Positional(rows1, rows2, fields).value;
            forall i, j :: 0 <= i < j < |found| ==> found[i].rowNumber < found[j].rowNumber
    ensures var found := Positional(rows1, rows2, fields).value;
            forall i :: 0 <= i < |found| ==> 1 <= found[i].rowNumber <= Max(|rows1|, |rows2|)
  {
    var m := Min(|rows1|, |rows2|);
    var found := Positional(rows1, rows2, fields).value;
    PositionalParts(rows1, rows2, fields);
    PairedOrder(rows1, rows2, m);
    forall i | 0 <= i < |found| ensures 1 <= found[i].rowNumber <= Max(|rows1|, |rows2|) {
      PositionalNumberAt(rows1, rows2, fields, i);
    }
    forall i, j | 0 <= i < j < |found| ensures found[i].rowNumber < found[j].rowNumber {
      PositionalNumberAt(rows1, rows2, fields, i);
      PositionalNumberAt(rows1, rows2, fields, j);
    }
  }

  /** Position j below the shorter row count has an entry exactly when some
      field of the first row reads differently in the second. */
  lemma PositionalPairedAt(rows1: seq<Dict>, rows2: seq<Dict>, fields: seq<string>, j: nat)
    requires j < |rows1| && j < |rows2| && DistinctKeys(rows1[j])
    requires Positional(rows1, rows2, fields).Ok?
    ensures var found := Positional(rows1, rows2, fields).value;
            (exists i :: 0 <= i < |found| && found[i].rowNumber == j + 1) <==> !SameRow(rows1[j], rows2[j])
  {
    PositionalParts(rows1, rows2, fields);
    var m := Min(|rows1|, |rows2|);
    var paired := Paired(rows1, rows2, m).value;
    var found := Positional(rows1, rows2, fields).value;
    ExtrasSpec(rows1, fields, |rows2|, |rows1|, Table1);
    ExtrasSpec(rows2, fields, |rows1|, |rows2|, Table2);
    PairedAt(rows1, rows2, m, j);
    CompareRowsSpec(rows1[j], rows2[j], j + 1);
    assert forall i :: 0 <= i < |paired| ==> found[i] == paired[i];
    if i :| 0 <= i < |found| && found[i].rowNumber == j + 1 {
      assert i < |paired|;
    }
    if !SameRow(rows1[j], rows2[j]) {
      var i :| 0 <= i < |paired| && paired[i].rowNumber == j + 1;
      assert found[i].rowNumber == j + 1;
    }
  }

  /** Entry `i` of a positional result, read off its row number: within
      the shorter row count it is what `_compare_rows` makes of that
      position; past it, that row of the longer table shown against None. */
  lemma PositionalEntryAt(rows1: seq<Dict>, rows2: seq<Dict>, fields: seq<string>, i: nat)
    requires Positional(rows1, rows2, fields).Ok?
    requires i < |Positional(rows1, rows2, fields).value|
    ensures var e := Positional(rows1, rows2, fields).value[i];
            1 <= e.rowNumber <= Max(|rows1|, |rows2|)
    ensures var e := Positional(rows1, rows2, fields).value[i];
            e.rowNumber <= Min(|rows1|, |rows2|) ==>
              CompareRows(rows1[e.rowNumber - 1], rows2[e.rowNumber - 1], e.rowNumber) == Ok(Some(e))
    ensures var e := Positional(rows1, rows2, fields).value[i];
            Min(|rows1|, |rows2|) < e.rowNumber <= |rows1| ==>
              OneSided(rows1[e.rowNumber - 1], fields, Table1) == Ok(e.differences)
    ensures var e := Positional(rows1, rows2, fields).value[i];
            Min(|rows1|, |rows2|) < e.rowNumber <= |rows2| ==>
              OneSided(rows2[e.rowNumber - 1], fields, Table2) == Ok(e.differences)
  {
    PositionalParts(rows1, rows2, fields);
    var m := Min(|rows1|, |rows2|);
    var paired := Paired(rows1, rows2, m).value;
    var extra1 := Extras(rows1, fields, |rows2|, |rows1|, Table1).value;
    var extra2 := Extras(rows2, fields, |rows1|, |rows2|, Table2).value;
    var found := Positional(rows1, rows2, fields).value;
    assert found == paired + extra1 + extra2;
    ExtrasSpec(rows1, fields, |rows2|, |rows1|, Table1);
    ExtrasSpec(rows2, fields, |rows1|, |rows2|, Table2);
    if i < |paired| {
      PairedOrder(rows1, rows2, m);
      assert found[i] == paired[i];
    } else if i < |paired| + |extra1| {
      assert found[i] == extra1[i - |paired|];
    } else {
      assert found[i] == extra2[i - |paired| - |extra1|];
    }
  }

  /** A numbered entry within the shorter row count lists exactly the
      differences `_compare_rows` finds at that position. */
  lemma PositionalPairedEntries(rows1: seq<Dict>, rows2: seq<Dict>, fields: seq<string>)
    requires Positional(rows1, rows2, fields).Ok?
    ensures var found := Positional(rows1, rows2, fields).value;
            forall i :: 0 <= i < |found| && 1 <= found[i].rowNumber <= Min(|rows1|, |rows2|) ==>
              FieldDiffs(rows1[found[i].rowNumber - 1], rows2[found[i].rowNumber - 1]) == Ok(found[i].differences)
  {
    var found := Positional(rows1, rows2, fields).value;
    forall i | 0 <= i < |found| && 1 <= found[i].rowNumber <= Min(|rows1|, |rows2|)
      ensures FieldDiffs(rows1[found[i].rowNumber - 1], rows2[found[i].rowNumber - 1]) == Ok(found[i].differences)
    {
      PositionalEntryAt(rows1, rows2, fields, i);
    }
  }

  /** `PositionalPairedAt` at every position below the shorter row count. */
  lemma PositionalPaired(rows1: seq<Dict>, rows2: seq<Dict>, fields: seq<string>)
    requires forall i :: 0 <= i < |rows1| ==> DistinctKeys(rows1[i])
    requires Positional(rows1, rows2, fields).Ok?
    ensures var found := Positional(rows1, rows2, fields).value;
            forall j :: 0 <= j < Min(|rows1|, |rows2|) ==>
              ((exists i :: 0 <= i < |found| && found[i].rowNumber == j + 1) <==> !SameRow(rows1[j], rows2[j]))
  {
    forall j | 0 <= j < Min(|rows1|, |rows2|)
      ensures var found := Positional(rows1, rows2, fields).value;
              (exists i :: 0 <= i < |found| && found[i].rowNumber == j + 1) <==> !SameRow(rows1[j], rows2[j])
    {
      PositionalPairedAt(rows1, rows2, fields, j);
    }
  }

  /** One position past the shorter row count: its entry, numbered after
      the paired entries and the extra rows before it, lists its own row's
      values and `None` for the other side. */
  lemma PositionalExtraAt(rows1: seq<Dict>, rows2: seq<Dict>, fields: seq<string>, j: nat)
    requires Positional(rows1, rows2, fields).Ok?
    requires |rows2| <= j < |rows1| || |rows1| <= j < |rows2|
    ensures var found := Positional(rows1, rows2, fields).value;
            exists i :: 0 <= i < |found| && found[i].rowNumber == j + 1 &&
                        (if j < |rows1| then OneSided(rows1[j], fields, Table1) else OneSided(rows2[j], fields, Table2))
                          == Ok(found[i].differences)
  {
    PositionalParts(rows1, rows2, fields);
    var paired := Paired(rows1, rows2, Min(|rows1|, |rows2|)).value;
    var extra1 := Extras(rows1, fields, |rows2|, |rows1|, Table1).value;
    var extra2 := Extras(rows2, fields, |rows1|, |rows2|, Table2).value;
    var found := Positional(rows1, rows2, fields).value;
    assert found == paired + extra1 + extra2;
    if j < |rows1| {
      ExtrasSpec(rows1, fields, |rows2|, |rows1|, Table1);
      var i := |paired| + (j - |rows2|);
      assert found[i] == extra1[j - |rows2|];
    } else {
      ExtrasSpec(rows1, fields, |rows2|, |rows1|, Table1);
      ExtrasSpec(rows2, fields, |rows1|, |rows2|, Table2);
      var i := |paired| + |extra1| + (j - |rows1|);
      assert found[i] == extra2[j - |rows1|];
    }
  }

  /** Every position past the shorter row count, up to the longer, has an
      entry listing every comparison field with `None` for the side that
      has no row there. */
  lemma PositionalExtras(rows1: seq<Dict>, rows2: seq<Dict>, fields: seq<string>)
    requires Positional(rows1, rows2, fields).Ok?
    ensures var found := Positional(rows1, rows2, fields).value;
            forall j :: |rows2| <= j < |rows1| ==>
              exists i :: 0 <= i < |found| && found[i].rowNumber == j + 1 &&
                          OneSided(rows1[j], fields, Table1) == Ok(found[i].differences)
    ensures var found := Positional(rows1, rows2, fields).value;
            forall j :: |rows1| <= j < |rows2| ==>
              exists i :: 0 <= i < |found| && found[i].rowNumber == j + 1 &&
                          OneSided(rows2[j], fields, Table2) == Ok(found[i].differences)
  {
    var found := Positional(rows1, rows2, fields).value;
    forall j | |rows2| <= j < |rows1|
      ensures exists i :: 0 <= i < |found| && found[i].rowNumber == j + 1 &&
                          OneSided(rows1[j], fields, Table1) == Ok(found[i].differences)
    {
      PositionalExtraAt(rows1, rows2, fields, j);
    }
    forall j | |rows1| <= j < |rows2|
      ensures exists i :: 0 <= i < |found| && found[i].rowNumber == j + 1 &&
                          OneSided(rows2[j], fields, Table2) == Ok(found[i].differences)
    {
      PositionalExtraAt(rows1, rows2, fields, j);
    }
  }

  /** With a non-empty field list no entry of a positional result is empty:
      a paired entry has a difference and an extra row lists every field. */
  lemma PositionalNonEmpty(rows1: seq<Dict>, rows2: seq<Dict>, fields: seq<string>)
    requires forall i :: 0 <= i < |rows1| ==> DistinctKeys(rows1[i])
    requires |fields| > 0
    requires Positional(rows1, rows2, fields).Ok?
    ensures var found := Positional(rows1, rows2, fields).value;
            forall i :: 0 <= i < |found| ==> |found[i].differences| > 0
  {
    var found := Positional(rows1, rows2, fields).value;
    forall i | 0 <= i < |found| ensures |found[i].differences| > 0 {
      PositionalEntryAt(rows1, rows2, fields, i);
      var n := found[i].rowNumber;
      if n <= Min(|rows1|, |rows2|) {
        CompareRowsSpec(rows1[n - 1], rows2[n - 1], n);
      } else if n <= |rows1| {
        OneSidedSpec(rows1[n - 1], fields, Table1);
      } else {
        OneSidedSpec(rows2[n - 1], fields, Table2);
      }
    }
  }

  /** Rows built from result rows at least as wide as the field list never
      lack a field, so the positional comparison cannot fail. */
  lemma PositionalDefined(fields: seq<string>, rows1: seq<seq<Value>>, rows2: seq<seq<Value>>)
    requires forall r :: r in rows1 ==> |r| >= |fields|
    requires forall r :: r in rows2 ==> |r| >= |fields|
    ensures Positional(RowDicts(fields, rows1), RowDicts(fields, rows2), fields).Ok?
  {
    var d1, d2 := RowDicts(fields, rows1), RowDicts(fields, rows2);
    forall i | 0 <= i < |rows1| ensures forall f :: f in fields ==> Lookup(d1[i], f).Some? {
      RowDictSpec(fields, rows1[i]);
    }
    forall i | 0 <= i < |rows2| ensures forall f :: f in fields ==> Lookup(d2[i], f).Some? {
      RowDictSpec(fields, rows2[i]);
    }
    forall j, i | 0 <= j < Min(|d1|, |d2|) && 0 <= i < |d1[j]|
      ensures Lookup(d2[j], d1[j][i].key).Some?
    {
      RowDictSpec(fields, rows1[j]);
      var n := Min(|fields|, |rows1[j]|);
      assert Lookup(d1[j], d1[j][i].key).Some? by { LookupEntry(d1[j], i); }
      assert d1[j][i].key in fields[..n];
    }
    PairedDefined(d1, d2, Min(|d1|, |d2|));
    ExtrasDefined(d1, fields, |d2|, |d1|, Table1);
    ExtrasDefined(d2, fields, |d1|, |d2|, Table2);
  }

  /** Two identical row lists give no row differences at all. */
  lemma PositionalSame(fields: seq<string>, rows: seq<seq<Value>>)
    ensures Positional(RowDicts(fields, rows), RowDicts(fields, rows), fields) == Ok([])
  {
    var d := RowDicts(fields, rows);
    forall j | 0 <= j < |d| ensures FieldDiffs(d[j], d[j]) == Ok([]) {
      RowDictSpec(fields, rows[j]);
      forall i | 0 <= i < |d[j]| ensures Lookup(d[j], d[j][i].key) == Some(d[j][i].value) {
        LookupEntry(d[j], i);
      }
      FieldDiffsSelf(d[j], d[j]);
    }
    PairedSame(d, |d|);
    var empty: seq<RowDiff> := [];
    assert Extras(d, fields, |d|, |d|, Table1) == Ok(empty);
    assert Positional(d, d, fields) == Ok(empty + empty + empty);
    assert empty + empty + empty == empty;
  }

  lemma {:induction false} PairedSame(rows: seq<Dict>, k: nat)
    requires k <= |rows|
    requires forall j :: 0 <= j < |rows| ==> FieldDiffs(rows[j], rows[j]) == Ok([])
    ensures Paired(rows, rows, k) == Ok([])
  {
    if k > 0 {
      PairedSame(rows, k - 1);
    }
  }
}
