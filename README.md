# Table comparison engine of diffTableTool, in Dafny

This project models `TableComparator`, the engine that compares two tables of one
database. Its settings are the two table names, an explicit field list, a list
of fields to exclude and a raw WHERE condition. With these it does the following:

- It works out which fields to compare.
- It builds one SELECT per table.
- It compares the fetched rows position by position.
- It reports the differing rows, the extra rows of the longer table and two
  summary entries.
- It can flatten the result into the records of a CSV report.

The database adapter is an input, the datatype `Comparator.Database`. It holds:

- a table's column list;
- a table's primary keys;
- the rows that a query string fetches;
- a flag saying whether the adapter is the PostgreSQL one.

Each of the first three is a total function that either answers or names the
exception it raises.

Modules:

- `Values` (values.dfy): an option and a result type, and column values (`Null`
  or an opaque datum). It also models the row dictionaries that
  `dict(zip(fields, row))` builds. They are association lists in insertion
  order, so a repeated field keeps its first place and its last value, and a
  short row lacks the trailing fields.
- `Fields` (fields.dfy): field resolution, which is the intersection of two
  column lists less the exclude list.
- `Query` (query.dfy): the SELECT builder, plus two readers: one for its
  comma-separated column lists and one that splits a query into its words.
- `Rows` (rows.dfy): `_compare_rows` and the positional matching.
  - `Paired` is the loop over common positions.
  - `Extras` is the loop over one table's extra rows.
  - `Positional` chains the two.
  - A missing dictionary key, where Python raises KeyError, is an `Err`
    carrying the key.
- `Report` (report.dfy): the CSV header and the flattening of row differences
  into records.
- `Comparator` (comparator.dfy):
  - the adapter, the settings and the result;
  - the exact message texts;
  - `GetComparisonFields` and `BuildQuery` over the adapter;
  - `Expected`, the specification of what `compare` returns or raises;
  - the class `TableComparator`, with its setters, `Compare` and
    `GenerateCsvReport`.
- `Properties` (properties.dfy): what a whole comparison promises, proved about
  `Expected`.

`Compare` runs the source's steps in order with the source's loops. It is proved
to return exactly `Expected`, so every lemma about `Expected` also holds for the
method. `Compare`, `CompareColumns` and `CompareFetched` follow the three stages
of `Expected`: column lists, then queries and fetches, then rows.

When the row counts are equal, `compare` takes a second branch whose loop zips
the two dictionary lists. That loop is the common-position loop with no extra
rows, so the model uses one loop for both branches.

## Model

| member | source | states |
|---|---|---|
| Values.RowDicts | table_diff.py:496-497 | one dictionary per fetched row, each `dict(zip(fields, row))` |
| Values.RowDictSpec | table_diff.py:496-497 | the dictionary's keys are distinct and are the fields `zip` reached; a field reads the value at its last position; a row at least as wide as the field list gives every field |
| Values.LookupPut | table_diff.py:496-497 | after `d[k] = v`, `k` reads `v` and every other key reads as before |
| Values.PutDistinct | table_diff.py:496-497 | writing a key keeps the keys distinct |
| Values.LookupEntry | table_diff.py:582-589 | in a dictionary with distinct keys each entry is what its key reads |
| Values.ZippedDistinct | table_diff.py:496-497 | a dictionary built by `zip` has distinct keys |
| Values.ZippedLookup | table_diff.py:496-497 | the keys of the first `n` zipped pairs are the first `n` fields, each with its last paired value |
| Values.KeyIndex | table_diff.py:587-589 | a present key has a position in the dictionary, holding that key and its value |
| Fields.Intersection | table_diff.py:369 | a name is in the result iff it is in both column lists; no name twice |
| Fields.Without | table_diff.py:375 | a name is kept iff it is not excluded; distinctness is kept; an empty exclude list changes nothing |
| Fields.ResolveFields | table_diff.py:358-379 | a non-empty explicit list is returned verbatim, even over excludes; otherwise exactly the names in both tables and not excluded, each once |
| Comparator.GetComparisonFields | table_diff.py:350-379 | the explicit list when set; otherwise fails exactly when a column fetch fails, with the first failure; otherwise the common, non-excluded columns, each once |
| Comparator.BuildQuery | table_diff.py:381-417 | fails exactly when the primary-key lookup fails; otherwise the SELECT over the keys that the adapter reports for that table |
| Query.SplitAt | table_diff.py:390 | splitting at one separator character splits the text on either side of it independently |
| Query.SelectWhereWords | table_diff.py:390-395 | read word by word, the first two steps give `SELECT`, the column-list words, `FROM`, the table-name words, then `WHERE` and the condition's words exactly when a non-empty condition is set |
| Query.QueryWords | table_diff.py:390-414 | read word by word, the query is the above followed by `ORDER BY` and the primary-key words when the table has keys, by `ORDER BY` and the column-list words for a key-less PostgreSQL table, and by nothing otherwise |
| Query.WhereIff | table_diff.py:393-395 | when `WHERE` is not a word of the column list, the table name or the key list, it is a word of the query iff a non-empty condition is set |
| Query.OrderByIff | table_diff.py:398-414 | when `ORDER` is not a word of the column list, the table name or a set condition, it is a word of the query iff the table has primary keys or the adapter is PostgreSQL |
| Query.ConditionShown | table_diff.py:389-395 | the query starts with `SELECT <columns> FROM <table>`, and a set condition occurs in it as ` WHERE <condition>` |
| Query.Split | table_diff.py:390 | splitting at a separator yields at least one piece |
| Query.SplitPlain | table_diff.py:390 | text without the separator stays in one piece when split |
| Query.SplitJoin | table_diff.py:390 | splitting a `", "`-joined list at commas gives the first name, then each later name behind one space |
| Query.ColumnNamesJoin | table_diff.py:390 | reading back a `", "`-joined list of comma-free names gives the list |
| Query.OrderByNames | table_diff.py:398-414 | when present, ORDER BY ends the query and its column list reads back as exactly the primary keys, or the fields for a key-less PostgreSQL table |
| Rows.FieldDiffsDefined | table_diff.py:584-586 | the row comparison fails iff some key of the first row is absent from the second, and then on such a key |
| Rows.FieldDiffsSound | table_diff.py:584-595 | every listed difference is a field of the first row whose value differs in the second, with both values |
| Rows.FieldDiffKey | table_diff.py:584-595 | each listed difference names a key of the first row |
| Rows.FieldDiffsComplete | table_diff.py:584-595 | every field of the first row that reads differently in the second is listed |
| Rows.FieldDiffsOrdered | table_diff.py:584-595 | every difference names a field of the first row, and differences come in that row's field order |
| Rows.FieldDiffsOrderedAt | table_diff.py:584-595 | of two differences, the earlier names a field that comes earlier in the first row |
| Rows.FieldDiffsSelf | table_diff.py:584-595 | a row compared with a row holding all of its entries has no difference |
| Rows.CompareRowsSpec | table_diff.py:572-604 | `_compare_rows` gives None iff every field of row 1 reads the same in row 2; otherwise the row number and a non-empty list of exactly the differences |
| Rows.PairedErrorSticks | table_diff.py:503-507 | once the common-position loop raises, later positions do not change the error |
| Rows.ExtrasErrorSticks | table_diff.py:510-525 | once an extra-row loop raises, later rows do not change the error |
| Rows.PairedOrder | table_diff.py:503-507 | row numbers from the common-position loop strictly increase and lie in 1..k |
| Rows.PairedAt | table_diff.py:503-507 | position j is compared without error, and an entry numbered j+1 exists iff `_compare_rows` found a difference there |
| Rows.PairedCoverage | table_diff.py:503-507 | `PairedAt` at every compared position |
| Rows.OneSidedSpec | table_diff.py:513-514 | an extra row's comprehension succeeds iff the row has every comparison field; it then lists every field in order with the missing side `None` |
| Rows.ExtrasSpec | table_diff.py:510-525 | the extra rows give entries numbered lo+1..hi in order, each the comprehension over its own row |
| Rows.ExtrasDefined | table_diff.py:510-525 | the extra-row loop cannot fail when every row it reaches has every field |
| Rows.PairedDefined | table_diff.py:503-507 | the common-position loop cannot fail when each second row has the first row's keys |
| Rows.PositionalNumberAt | table_diff.py:500-528 | an entry before the end of the common-position entries is that entry and is numbered within the shorter count; a later one is numbered after the shorter count, in sequence, up to the longer count |
| Rows.PositionalEntryAt | table_diff.py:500-528 | an entry numbered within the shorter count is what `_compare_rows` returns for that position; a later one is that row of the longer table shown against `None` |
| Rows.PositionalOrder | table_diff.py:500-528 | row numbers strictly increase and lie between 1 and the longer row count |
| Rows.PositionalPairedAt | table_diff.py:503-507 | a common position j has an entry numbered j+1 iff some field of the first-table row reads differently in the second-table row; a key only the second row has is not looked at |
| Rows.PositionalPaired | table_diff.py:503-552 | `PositionalPairedAt` at every common position |
| Rows.PositionalPairedEntries | table_diff.py:503-507 | a common-position entry lists exactly the differences `_compare_rows` finds there |
| Rows.PositionalExtras | table_diff.py:509-525 | every position past the shorter count has an entry with its own row's values and `None` for the other side |
| Rows.PositionalExtraAt | table_diff.py:509-525 | a position past the shorter count has an entry with its number, listing its own row's values against `None` |
| Rows.PositionalCoversExtras | table_diff.py:509-525 | there are at least as many entries as the row counts differ by |
| Rows.PositionalNonEmpty | table_diff.py:500-528 | with a non-empty field list no entry is empty |
| Rows.PositionalDefined | table_diff.py:496-528 | rows at least as wide as the field list never raise KeyError |
| Rows.PositionalSame | table_diff.py:539-555 | identical row lists give no row difference |
| Rows.PairedSame | table_diff.py:548-552 | rows that each compare equal to themselves give no common-position entry |
| Report.RecordsOf | table_diff.py:627-633 | one record per field difference of a row, carrying the row number |
| Report.FieldDiffCountAppend | table_diff.py:625-633 | adding a row difference adds its field differences to the count |
| Report.FlattenLength | table_diff.py:625-633 | the report has one record per field difference |
| Report.FlattenAt | table_diff.py:625-633 | field difference j of row difference i is the record right after those of the earlier row differences: row order, then field order |
| Report.FlattenEmpty | table_diff.py:621-633 | the report is the header alone iff no row difference holds a field difference |
| Report.FlattenRowNumbers | table_diff.py:626-629 | every record carries the number of one of the row differences |
| Report.FlattenOrdered | table_diff.py:625-633 | with increasing row numbers the records come in row-number order |
| Comparator.CompareRowLists | table_diff.py:500-555 | the three row loops return exactly the positional comparison, and `diff_count` equals the number of entries |
| Comparator.PairedRows | table_diff.py:503-507 | the common-position loop returns exactly the paired comparison, counting each entry it keeps |
| Comparator.ExtraRows | table_diff.py:509-525 | an extra-row loop returns exactly the entries for the rows of one table past the other's count, counting each |
| Comparator.CompareFetched | table_diff.py:475-563 | once both row lists are fetched, the result has the fetched counts, a row-count entry iff they differ, the positional row differences and a counting entry iff there is one |
| Comparator.TableComparator.constructor | table_diff.py:287-298 | a new comparator holds the adapter it is given, and has no tables, no fields, no excludes and no condition |
| Comparator.TableComparator.SetTables | table_diff.py:300-309 | sets both table names and nothing else |
| Comparator.TableComparator.SetFields | table_diff.py:311-318 | sets the explicit field list and nothing else |
| Comparator.TableComparator.SetExcludeFields | table_diff.py:320-327 | sets the exclude list and nothing else |
| Comparator.TableComparator.SetWhereCondition | table_diff.py:329-336 | sets the condition and nothing else |
| Comparator.TableComparator.Compare | table_diff.py:419-570 | returns exactly what `Expected` describes for the current settings; every error carries the common prefix |
| Comparator.TableComparator.CompareColumns | table_diff.py:433-563 | given the column lists the adapter answers, returns exactly the rest of the comparison: short-circuit, fields, queries, fetches and rows |
| Comparator.TableComparator.GenerateCsvReport | table_diff.py:606-635 | the fixed four-column header, then the flattened records of the result's row differences |
| Properties.ShortCircuit | table_diff.py:428-458 | a result echoes both column lists; its field list is empty iff no explicit or exclude list is set and the column sets differ; that result has counts 0, one field-mismatch entry and no row differences |
| Properties.ShortCircuitRunsNoQuery | table_diff.py:434-448 | on the short-circuit, adapters agreeing on the column lists give the same result, whatever their keys and rows |
| Properties.ErrorsPrefixed | table_diff.py:568-570 | every failure surfaces as one error whose message starts with the common prefix |
| Properties.NoFieldsError | table_diff.py:452-458 | an empty resolved field list gives the no-fields error |
| Properties.ExplicitFields | table_diff.py:358-360 | an explicit field list is compared verbatim |
| Properties.CommonFields | table_diff.py:363-379 | without an explicit list, the compared fields are exactly the common, non-excluded columns, each once |
| Properties.ResultFromRows | table_diff.py:460-563 | past the short-circuit, the counts are the fetched lengths, the row differences are the positional comparison and the summaries follow from them |
| Properties.SummariesSpec | table_diff.py:488-563 | the summary list has a row-count entry first iff the counts differ, a counting entry iff the count is positive, carrying the count, and never a field-mismatch entry |
| Properties.SummaryEntries | table_diff.py:488-563 | a row-count entry comes first iff the counts differ; a counting entry exists iff there is a row difference, and its count is their number; differing counts leave at least one entry per extra row |
| Properties.RowDifferencesOrdered | table_diff.py:500-555 | row numbers strictly increase, lie in 1..the longer count, and each entry names a field |
| Properties.RowDifferencesPaired | table_diff.py:503-552 | a common position is reported iff some field of its first-table dictionary reads differently in its second-table dictionary; a key only the second dictionary has is not looked at |
| Properties.RowDifferencesExtra | table_diff.py:509-525 | every position only one table has is reported |
| Properties.IdenticalTables | table_diff.py:539-563 | equal columns and equal fetched rows give equal counts and no differences at all |
| Properties.ReportHeaderOnly | table_diff.py:621-633 | the report of a comparison is the header alone iff there is no row difference |
| Properties.ReportOrdered | table_diff.py:625-633 | the report's records follow row-number order, one per field difference |

## Left out

- The adapters (SQLite, MySQL, PostgreSQL) and their connections and catalog queries are not modelled. Their answers are the inputs in `Database`.
- `get_table_fields` is not modelled separately. It only logs around the adapter call, so the model calls `Database.tableFields` directly.
- When no explicit field list is set, `get_comparison_fields` fetches both column lists a second time inside `compare`. The adapter is a function, so the second fetch gives the first answers, and `Compare` fetches them once.
- The order of `list(set(fields1) & set(fields2))` depends on string hashing, and Python promises no order. The model lists the common names in table 1's order.
  - This is a modelling choice that `Compare`'s contract fixes: through `Expected` it decides the result's field list, and with it the SELECT column list, the order of each row's differences and the order of the CSV records.
  - Only the `Fields` and `Properties` lemmas are free of it: they state which names are compared, not in what order.
- Column values are opaque data compared by equality.
  - Float arithmetic is not modelled.
  - `IdenticalTables`: relies on value equality being reflexive, so it does not cover a float NaN, which Python reports as differing from itself.
- The RuntimeError class, exception chaining and the exception types of the adapters are not modelled. An error is its message, and an adapter failure is the `str()` of its exception.
- `KeyErrorText`: renders a missing key as `'key'`. It does not model how `repr` quotes a key that itself contains a quote.
- An unset table name is passed to the adapter as unset, and shows as `None` in the query and message texts. What a real adapter does with it is not modelled.
- `GenerateCsvReport` does not write a file. It returns the header and the records.
  - The `csv` module's quoting and rendering of values is not modelled.
  - The `'row_differences' in result` test is not modelled, because every `ComparisonResult` has that field.
- Logging is not modelled.
- Aliasing of lists is not modelled. `set_fields` and `set_exclude_fields` keep the caller's own list object, and with an explicit list `result['fields']` is that same object. The model copies values instead. The comparator never changes these lists, so nothing it computes depends on the aliasing.
- Tests that target other versions of the tool are not modelled: key-based matching, other adapters, other result keys.
