/** Values as the database driver hands them over, and the row dictionaries
    the comparator builds from them with `dict(zip(fields, row))`. */
module Values {

  datatype Option<+T> = None | Some(value: T)

  datatype Result<+T, +E> = Ok(value: T) | Err(error: E)

  /** A column value of a fetched row. The comparator only ever tests two
      values with `!=`, so a non-null value is an opaque datum: two data are
      equal exactly when their codes are. `Null` is SQL NULL, which the
      driver returns as Python's `None`; it also stands for the `None` shown
      for the missing side of an extra row. */
  datatype Value = Null | Datum(code: int)

  /** One key/value pair of a row dictionary. */
  datatype Entry = Entry(key: string, value: Value)

  /** A Python dict from column name to value, as its entries in insertion
      order. */
  type Dict = seq<Entry>

  /** `d[k]`, or None when `k` is not a key (where Python raises KeyError). */
  function Lookup(d: Dict, k: string): Option<Value>
  {
    if d == [] then None
    else if d[0].key == k then Some(d[0].value)
    else Lookup(d[1..], k)
  }

  /** No key occurs twice: every dict built by `Put` has this shape. */
  predicate DistinctKeys(d: Dict)
  {
    d == [] || (Lookup(d[1..], d[0].key) == None && DistinctKeys(d[1..]))
  }

  /** `d[k] = v`: an existing key keeps its place and takes the new value, a
      new key goes to the end. */
  function Put(d: Dict, k: string, v: Value): Dict
  {
    if d == [] then [Entry(k, v)]
    else if d[0].key == k then [Entry(k, v)] + d[1..]
    else [d[0]] + Put(d[1..], k, v)
  }

  /** The dict built from the first `n` pairs of `zip(fields, row)`. */
  function Zipped(fields: seq<string>, row: seq<Value>, n: nat): Dict
    requires n <= |fields| && n <= |row|
  {
    if n == 0 then [] else Put(Zipped(fields, row, n - 1), fields[n - 1], row[n - 1])
  }

  function Min(a: nat, b: nat): nat { if a <= b then a else b }

  /** `dict(zip(fields, row))`: zip stops at the shorter of the two, and a
      repeated field name keeps its first place and its last value. */
  function RowDict(fields: seq<string>, row: seq<Value>): Dict
  {
    Zipped(fields, row, Min(|fields|, |row|))
  }

  /** `[dict(zip(fields, row)) for row in rows]` */
  function RowDicts(fields: seq<string>, rows: seq<seq<Value>>): (ds: seq<Dict>)
    ensures |ds| == |rows|
    ensures forall i :: 0 <= i < |rows| ==> ds[i] == RowDict(fields, rows[i])
  {
    seq(|rows|, i requires 0 <= i < |rows| => RowDict(fields, rows[i]))
  }

  /** Position of key `k` in `d`. */
  function KeyIndex(d: Dict, k: string): (i: nat)
    requires Lookup(d, k).Some?
    ensures i < |d| && d[i] == Entry(k, Lookup(d, k).value)
  {
    if d[0].key == k then 0 else 1 + KeyIndex(d[1..], k)
  }

  /** Reading after writing: `Put(d, k, v)[k]` is `v` and every other key
      reads as before. */
  lemma {:induction false} LookupPut(d: Dict, k: string, v: Value, k': string)
    ensures Lookup(Put(d, k, v), k') == if k' == k then Some(v) else Lookup(d, k')
  {
    if d != [] && d[0].key != k {
      LookupPut(d[1..], k, v, k');
    }
  }

  /** Writing a key keeps the keys distinct. */
  lemma {:induction false} PutDistinct(d: Dict, k: string, v: Value)
    requires DistinctKeys(d)
    ensures DistinctKeys(Put(d, k, v))
  {
    if d != [] && d[0].key != k {
      PutDistinct(d[1..], k, v);
      LookupPut(d[1..], k, v, d[0].key);
    }
  }

  /** In a dict with distinct keys every entry is what its key reads. */
  lemma {:induction false} LookupEntry(d: Dict, i: nat)
    requires DistinctKeys(d) && i < |d|
    ensures Lookup(d, d[i].key) == Some(d[i].value)
  {
    if i > 0 {
      LookupEntry(d[1..], i - 1);
      assert d[1..][i - 1] == d[i];
    }
  }

  /** A dict built from `zip` has distinct keys. */
  lemma {:induction false} ZippedDistinct(fields: seq<string>, row: seq<Value>, n: nat)
    requires n <= |fields| && n <= |row|
    ensures DistinctKeys(Zipped(fields, row, n))
  {
    if n > 0 {
      ZippedDistinct(fields, row, n - 1);
      PutDistinct(Zipped(fields, row, n - 1), fields[n - 1], row[n - 1]);
    }
  }

  /** The keys of the zipped dict are the first `n` field names, and each
      reads the value paired with its last occurrence. */
  lemma {:induction false} ZippedLookup(fields: seq<string>, row: seq<Value>, n: nat, k: string)
    requires n <= |fields| && n <= |row|
    ensures Lookup(Zipped(fields, row, n), k).Some? <==> k in fields[..n]
    ensures forall j :: 0 <= j < n && fields[j] == k && (forall j' :: j < j' < n ==> fields[j'] != k)
              ==> Lookup(Zipped(fields, row, n), k) == Some(row[j])
  {
    if n > 0 {
      ZippedLookup(fields, row, n - 1, k);
      LookupPut(Zipped(fields, row, n - 1), fields[n - 1], row[n - 1], k);
      assert fields[..n] == fields[..n - 1] + [fields[n - 1]];
    }
  }

  /** `dict(zip(fields, row))` has distinct keys, namely the fields that zip
      reached; a field reads the row value at its last position; and when
      the row is at least as wide as the field list every field is a key. */
  lemma RowDictSpec(fields: seq<string>, row: seq<Value>)
    ensures DistinctKeys(RowDict(fields, row))
    ensures forall k :: Lookup(RowDict(fields, row), k).Some? <==> k in fields[..Min(|fields|, |row|)]
    ensures forall j :: 0 <= j < |fields| && j < |row| && (forall j' :: j < j' < |fields| ==> fields[j'] != fields[j])
              ==> Lookup(RowDict(fields, row), fields[j]) == Some(row[j])
    ensures |row| >= |fields| ==> forall k :: k in fields ==> Lookup(RowDict(fields, row), k).Some?
  {
    var n := Min(|fields|, |row|);
    ZippedDistinct(fields, row, n);
    forall k ensures Lookup(RowDict(fields, row), k).Some? <==> k in fields[..n] {
      ZippedLookup(fields, row, n, k);
    }
    forall j | 0 <= j < |fields| && j < |row| && (forall j' :: j < j' < |fields| ==> fields[j'] != fields[j])
      ensures Lookup(RowDict(fields, row), fields[j]) == Some(row[j])
    {
      ZippedLookup(fields, row, n, fields[j]);
    }
    if |row| >= |fields| {
      assert fields[..n] == fields;
    }
  }
}
