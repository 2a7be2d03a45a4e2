/** Which columns a comparison looks at: `get_comparison_fields`. */
module Fields {

  predicate Distinct(s: seq<string>)
  {
    forall i, j :: 0 <= i < j < |s| ==> s[i] != s[j]
  }

  /** `list(set(fields1) & set(fields2))`: every name found in both lists,
      once. Python leaves the order of a set to its hashing; this model lists
      the names in the order of their first occurrence in `fields1`, and no
      contract below depends on that order. */
  function Intersection(fields1: seq<string>, fields2: seq<string>): (r: seq<string>)
    ensures forall f :: f in r <==> f in fields1 && f in fields2
    ensures Distinct(r)
  {
    if fields1 == [] then []
    else
      var init := Intersection(fields1[..|fields1| - 1], fields2);
      var last := fields1[|fields1| - 1];
      assert fields1 == fields1[..|fields1| - 1] + [last];
      if last in fields2 && last !in init then init + [last] else init
  }

  /** `[f for f in names if f not in exclude]` */
  function Without(names: seq<string>, exclude: seq<string>): (r: seq<string>)
    ensures forall f :: f in r <==> f in names && f !in exclude
    ensures Distinct(names) ==> Distinct(r)
    ensures exclude == [] ==> r == names
  {
    if names == [] then []
    else if names[0] in exclude then Without(names[1..], exclude)
    else [names[0]] + Without(names[1..], exclude)
  }

  /** The field list of a comparison, given the explicit field list, the
      exclude list and both tables' column lists. A non-empty explicit list
      wins outright and is used verbatim, even over the exclude list;
      otherwise the result is every column the two tables share, each once,
      less the excluded names. */
  function ResolveFields(explicit: seq<string>, exclude: seq<string>,
                         fields1: seq<string>, fields2: seq<string>): (r: seq<string>)
    ensures |explicit| > 0 ==> r == explicit
    ensures |explicit| == 0 ==> Distinct(r)
    ensures |explicit| == 0 ==> forall f :: f in r <==> f in fields1 && f in fields2 && f !in exclude
  {
    if |explicit| > 0 then explicit
    else
      var common := Intersection(fields1, fields2);
      if |exclude| > 0 then Without(common, exclude) else common
  }
}
