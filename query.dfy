/** The SELECT statement each side of a comparison runs: `build_query`. */
module Query {
  import opened Values

  /** `sep.join(parts)` */
  function Join(parts: seq<string>, sep: string): string
  {
    if parts == [] then ""
    else if |parts| == 1 then parts[0]
    else parts[0] + sep + Join(parts[1..], sep)
  }

  /** `s.split(c)` for a single-character separator. */
  function Split(s: string, c: char): (pieces: seq<string>)
    ensures |pieces| > 0
  {
    if s == [] then [""]
    else if s[0] == c then [""] + Split(s[1..], c)
    else
      var rest := Split(s[1..], c);
      [[s[0]] + rest[0]] + rest[1..]
  }

  function DropFirst(s: string): string
  {
    if s == [] then s else s[1..]
  }

  /** Reads a ", "-separated column list back into its names. */
  function ColumnNames(s: string): seq<string>
  {
    var pieces := Split(s, ',');
    [pieces[0]] + seq(|pieces| - 1, i requires 0 <= i < |pieces| - 1 => DropFirst(pieces[i + 1]))
  }

  /** Python's truthiness test on the WHERE text: unset (`None`) and the
      empty string both mean "no condition". */
  predicate HasCondition(where: Option<string>)
  {
    where.Some? && where.value != ""
  }

  /** The first two steps of the query: the column list and the table,
      then the condition when one is set. */
  function SelectWhere(fields: seq<string>, table: string, where: Option<string>): string
  {
    var query := "SELECT " + Join(fields, ", ") + " FROM " + table;
    if HasCondition(where) then query + " WHERE " + where.value else query
  }

  /** The query for one table, as the source assembles it step by step. The
      primary keys are those the adapter reports for `table`, and
      `isPostgres` says whether the adapter is the PostgreSQL one. */
  function BuildSelect(fields: seq<string>, table: string, where: Option<string>,
                       primaryKeys: seq<string>, isPostgres: bool): string
  {
    var query := SelectWhere(fields, table, where);
    if |primaryKeys| > 0 then query + " ORDER BY " + Join(primaryKeys, ", ")
    else if isPostgres then query + " ORDER BY " + Join(fields, ", ")
    else query
  }

  /** Splitting text without the separator gives it back whole, and text
      without the separator in front of a split joins the first piece. */
  lemma {:induction false} SplitPlain(x: string, t: string, c: char)
    requires c !in x
    ensures Split(x + t, c) == [x + Split(t, c)[0]] + Split(t, c)[1..]
  {
    if x == [] {
      assert x + t == t;
      assert x + Split(t, c)[0] == Split(t, c)[0];
      assert Split(t, c) == [Split(t, c)[0]] + Split(t, c)[1..];
    } else {
      assert (x + t)[1..] == x[1..] + t;
      SplitPlain(x[1..], t, c);
      assert [x[0]] + (x[1..] + Split(t, c)[0]) == x + Split(t, c)[0];
    }
  }

  /** Splitting a ", "-joined list at the commas gives the first name and
      then every other name behind a single space. */
  lemma {:induction false} SplitJoin(parts: seq<string>)
    requires |parts| > 0
    requires forall p :: p in parts ==> ',' !in p
    ensures var pieces := Split(Join(parts, ", "), ',');
            |pieces| == |parts| && pieces[0] == parts[0] &&
            forall i :: 0 < i < |parts| ==> pieces[i] == " " + parts[i]
  {
    if |parts| == 1 {
      SplitPlain(parts[0], "", ',');
      assert parts[0] + "" == parts[0];
    } else {
      var rest := Join(parts[1..], ", ");
      SplitJoin(parts[1..]);
      var tail := Split(rest, ',');
      assert parts[0] + ", " + rest == parts[0] + (", " + rest);
      SplitPlain(parts[0], ", " + rest, ',');
      assert (", " + rest)[1..] == " " + rest;
      SplitPlain(" ", rest, ',');
      assert Split(", " + rest, ',') == [""] + ([" " + tail[0]] + tail[1..]);
      forall i | 0 < i < |parts|
        ensures Split(Join(parts, ", "), ',')[i] == " " + parts[i]
      {
        if i > 1 {
          assert parts[1..][i - 1] == parts[i];
        }
      }
    }
  }

  /** `ColumnNames` keeps the first piece of the split and drops the space
      in front of every other one. */
  lemma ColumnNamesOfPieces(s: string, parts: seq<string>)
    requires |Split(s, ',')| == |parts| && Split(s, ',')[0] == parts[0]
    requires forall i :: 0 < i < |parts| ==> Split(s, ',')[i] == " " + parts[i]
    ensures ColumnNames(s) == parts
  {
    var pieces := Split(s, ',');
    var names := ColumnNames(s);
    forall i | 0 < i < |parts| ensures names[i] == parts[i] {
      assert names[i] == DropFirst(pieces[i]);
      assert (" " + parts[i])[1..] == parts[i];
    }
  }

  /** Reading back a joined column list: `ColumnNames` inverts
      `Join(_, ", ")` on non-empty lists of names without commas. */
  lemma ColumnNamesJoin(parts: seq<string>)
    requires |parts| > 0
    requires forall p :: p in parts ==> ',' !in p
    ensures ColumnNames(Join(parts, ", ")) == parts
  {
    SplitJoin(parts);
    ColumnNamesOfPieces(Join(parts, ", "), parts);
  }

  /** The ORDER BY clause, when present, is the last clause and names
      exactly the primary keys, or for a PostgreSQL table without them
      exactly the selected fields: reading its column list back gives them. */
  lemma OrderByNames(fields: seq<string>, table: string, where: Option<string>,
                     primaryKeys: seq<string>, isPostgres: bool)
    requires forall p :: p in primaryKeys ==> ',' !in p
    requires forall f :: f in fields ==> ',' !in f
    requires |primaryKeys| > 0 || (isPostgres && |fields| > 0)
    ensures exists head :: BuildSelect(fields, table, where, primaryKeys, isPostgres)
              == head + " ORDER BY " + Join(if |primaryKeys| > 0 then primaryKeys else fields, ", ")
    ensures ColumnNames(Join(if |primaryKeys| > 0 then primaryKeys else fields, ", "))
              == if |primaryKeys| > 0 then primaryKeys else fields
  {
    var select := "SELECT " + Join(fields, ", ") + " FROM " + table;
    var head := if HasCondition(where) then select + " WHERE " + where.value else select;
    var keys := if |primaryKeys| > 0 then primaryKeys else fields;
    assert BuildSelect(fields, table, where, primaryKeys, isPostgres) == head + " ORDER BY " + Join(keys, ", ");
    ColumnNamesJoin(keys);
  }

  // ---------------------------------------------------------------------
  // Reading the query back word by word

  /** The words of a text, as `s.split(' ')` gives them. */
  function Words(s: string): seq<string>
  {
    Split(s, ' ')
  }

  /** Splitting at one separator splits the two sides on their own. */
  lemma {:induction false} SplitAt(a: string, b: string, c: char)
    ensures Split(a + [c] + b, c) == Split(a, c) + Split(b, c)
  {
    if a == [] {
      assert a + [c] + b == [c] + b;
    } else {
      assert (a + [c] + b)[1..] == a[1..] + [c] + b;
      SplitAt(a[1..], b, c);
    }
  }

  /** A leading keyword followed by a space is a word of its own. */
  lemma WordsFront(keyword: string, y: string)
    requires ' ' !in keyword
    ensures Words(keyword + " " + y) == [keyword] + Words(y)
  {
    SplitPlain(keyword, "", ' ');
    assert keyword + "" == keyword;
    SplitAt(keyword, y, ' ');
  }

  /** A keyword between two spaces is a word of its own. */
  lemma WordsAround(x: string, keyword: string, y: string)
    requires ' ' !in keyword
    ensures Words(x + " " + keyword + " " + y) == Words(x) + [keyword] + Words(y)
  {
    assert x + " " + keyword + " " + y == x + [' '] + (keyword + " " + y);
    SplitAt(x, keyword + " " + y, ' ');
    WordsFront(keyword, y);
  }

  /** The SELECT part word by word. */
  lemma WordsHead(columns: string, table: string)
    ensures Words("SELECT " + columns + " FROM " + table) == ["SELECT"] + Words(columns) + ["FROM"] + Words(table)
  {
    var rest := columns + " FROM " + table;
    assert rest == columns + " " + "FROM" + " " + table;
    WordsAround(columns, "FROM", table);
    assert "SELECT " + columns + " FROM " + table == "SELECT" + " " + rest;
    WordsFront("SELECT", rest);
  }

  /** A WHERE clause word by word. */
  lemma WordsWhere(x: string, condition: string)
    ensures Words(x + " WHERE " + condition) == Words(x) + ["WHERE"] + Words(condition)
  {
    WordsAround(x, "WHERE", condition);
    assert x + " WHERE " + condition == x + " " + "WHERE" + " " + condition;
  }

  /** An ORDER BY clause word by word. */
  lemma WordsOrderBy(x: string, keys: string)
    ensures Words(x + " ORDER BY " + keys) == Words(x) + ["ORDER", "BY"] + Words(keys)
  {
    assert x + " ORDER BY " + keys == x + " " + "ORDER" + " " + ("BY" + " " + keys);
    WordsAround(x, "ORDER", "BY" + " " + keys);
    WordsFront("BY", keys);
  }

  /** The first two steps word by word: SELECT, the words of the column
      list, FROM, the words of the table name, then WHERE and the words of
      the condition exactly when one is set. */
  lemma SelectWhereWords(fields: seq<string>, table: string, where: Option<string>)
    ensures Words(SelectWhere(fields, table, where)) ==
              ["SELECT"] + Words(Join(fields, ", ")) + ["FROM"] + Words(table) +
              (if HasCondition(where) then ["WHERE"] + Words(where.value) else [])
  {
    var head := "SELECT " + Join(fields, ", ") + " FROM " + table;
    WordsHead(Join(fields, ", "), table);
    if HasCondition(where) {
      WordsWhere(head, where.value);
    }
  }

  /** The query word by word: SELECT, the words of the column list, FROM,
      the words of the table name, then WHERE and the words of the
      condition exactly when one is set, then ORDER BY and the words of the
      primary-key list, or of the column list for a PostgreSQL table
      without primary keys, or nothing. */
  lemma QueryWords(fields: seq<string>, table: string, where: Option<string>,
                   primaryKeys: seq<string>, isPostgres: bool)
    ensures Words(BuildSelect(fields, table, where, primaryKeys, isPostgres)) ==
              ["SELECT"] + Words(Join(fields, ", ")) + ["FROM"] + Words(table) +
              (if HasCondition(where) then ["WHERE"] + Words(where.value) else []) +
              (if |primaryKeys| > 0 then ["ORDER", "BY"] + Words(Join(primaryKeys, ", "))
               else if isPostgres then ["ORDER", "BY"] + Words(Join(fields, ", "))
               else [])
  {
    var filtered := SelectWhere(fields, table, where);
    SelectWhereWords(fields, table, where);
    if |primaryKeys| > 0 || isPostgres {
      var keys := Join(if |primaryKeys| > 0 then primaryKeys else fields, ", ");
      WordsOrderBy(filtered, keys);
    }
  }

  /** The query has a WHERE clause exactly when a non-empty condition is
      set, provided no column name, table name or key holds the word. */
  lemma WhereIff(fields: seq<string>, table: string, where: Option<string>,
                 primaryKeys: seq<string>, isPostgres: bool)
    requires "WHERE" !in Words(Join(fields, ", ")) && "WHERE" !in Words(table)
    requires "WHERE" !in Words(Join(primaryKeys, ", "))
    ensures "WHERE" in Words(BuildSelect(fields, table, where, primaryKeys, isPostgres)) <==> HasCondition(where)
  {
    QueryWords(fields, table, where, primaryKeys, isPostgres);
  }

  /** The query has an ORDER BY clause exactly when the table has primary
      keys or the adapter is PostgreSQL, provided no column name, table
      name or condition holds the word. */
  lemma OrderByIff(fields: seq<string>, table: string, where: Option<string>,
                   primaryKeys: seq<string>, isPostgres: bool)
    requires "ORDER" !in Words(Join(fields, ", ")) && "ORDER" !in Words(table)
    requires HasCondition(where) ==> "ORDER" !in Words(where.value)
    ensures "ORDER" in Words(BuildSelect(fields, table, where, primaryKeys, isPostgres)) <==>
              (|primaryKeys| > 0 || isPostgres)
  {
    QueryWords(fields, table, where, primaryKeys, isPostgres);
  }

  /** `t` occurs somewhere in `s`: Python's `t in s` on strings. */
  predicate Occurs(t: string, s: string)
  {
    exists i :: 0 <= i <= |s| && t <= s[i..]
  }

  /** The query starts with the column list and the table, and a set
      condition appears in it behind the WHERE keyword. */
  lemma ConditionShown(fields: seq<string>, table: string, where: Option<string>,
                       primaryKeys: seq<string>, isPostgres: bool)
    ensures "SELECT " + Join(fields, ", ") + " FROM " + table <= BuildSelect(fields, table, where, primaryKeys, isPostgres)
    ensures HasCondition(where) ==>
              Occurs(" WHERE " + where.value, BuildSelect(fields, table, where, primaryKeys, isPostgres))
  {
    var head := "SELECT " + Join(fields, ", ") + " FROM " + table;
    var filtered := SelectWhere(fields, table, where);
    var q := BuildSelect(fields, table, where, primaryKeys, isPostgres);
    assert filtered <= q;
    if HasCondition(where) {
      var clause := " WHERE " + where.value;
      assert filtered == head + clause;
      assert q[|head|..][..|clause|] == clause;
    }
  }
}
