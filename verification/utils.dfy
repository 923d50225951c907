/** `split_table_column`: a qualified `table.column` name, column first. */
module Utils {
  import opened Wrappers
  import opened PyStrings

  /** The column part and, for a qualified name, the table part. */
  function SplitTableColumn(fullName: string): (r: (string, Option<string>))
    ensures !Contains(fullName, ".") ==> r == (fullName, None)
    ensures Contains(fullName, ".") ==>
      r.1.Some? && !Contains(r.0, ".") && !Contains(r.1.value, ".")
  {
    if Contains(fullName, ".") then
      var parts := Split(fullName, ".");
      (parts[1], Some(parts[0]))
    else (fullName, None)
  }

  /** `t.c` gives `c` then `t`; with more segments the first two are kept. */
  lemma {:induction false} SplitQualified(t: string, c: string, rest: seq<string>)
    requires !Contains(t, ".") && !Contains(c, ".")
    requires forall k :: 0 <= k < |rest| ==> !Contains(rest[k], ".")
    ensures SplitTableColumn(Join(".", [t, c] + rest)) == (c, Some(t))
  {
    var parts := [t, c] + rest;
    forall k | 0 <= k < |parts| ensures NoEarlySep(parts[k], ".") {
      ContainsChar(parts[k], '.');
      NoEarlySepFromFirstChar(parts[k], ".");
    }
    SplitJoin(parts, ".");
    var s := Join(".", parts);
    assert s == t + "." + Join(".", parts[1..]);
    assert OccursAt(s, ".", |t|);
  }
}
