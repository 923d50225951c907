/** `Table`: the bookkeeping of a table's name and column list.  The
    SQLAlchemy table object it also maintains is not part of this model. */
module Tables {
  import opened Wrappers
  import opened PyStrings
  import opened Utils

  /** The argument of `columns`: one name or a list of names. */
  datatype ColumnsArg = One(column: string) | Many(columns: seq<string>)

  function AsList(arg: ColumnsArg): seq<string> {
    match arg
    case One(c) => [c]
    case Many(cs) => cs
  }

  /** A column belongs to table `name` when it is unqualified or qualified
      by `name`. */
  predicate Belongs(column: string, name: string) {
    var (_, t) := SplitTableColumn(column);
    t.None? || t.value == name
  }

  /** The column list after offering `incoming` one by one: a column already
      in the list, or qualified by another table, is skipped; the others are
      appended. */
  function Accept(existing: seq<string>, incoming: seq<string>, name: string): seq<string>
    decreases |incoming|
  {
    if |incoming| == 0 then existing
    else
      var last := incoming[|incoming| - 1];
      var before := Accept(existing, incoming[..|incoming| - 1], name);
      if last in before || !Belongs(last, name) then before else before + [last]
  }

  predicate NoDuplicates(s: seq<string>) {
    forall i, j :: 0 <= i < j < |s| ==> s[i] != s[j]
  }

  class Table {
    var name: string
    var columns: seq<string>

    /** `Table(engine, table, init, columns)`. */
    constructor (name: string, columns: Option<ColumnsArg>)
      ensures this.name == name
      ensures this.columns == if columns.None? then [] else Accept([], AsList(columns.value), name)
    {
      this.name := name;
      this.columns := [];
      new;
      if columns.Some? {
        var _ := Columns(columns);
      }
    }

    /** `columns(columns)`: with no argument the current list, otherwise the
        accepted columns are appended. */
    method Columns(arg: Option<ColumnsArg>) returns (current: Option<seq<string>>)
      modifies this`columns
      ensures arg.None? ==> current == Some(columns) && columns == old(columns)
      ensures arg.Some? ==> current.None? && columns == Accept(old(columns), AsList(arg.value), name)
    {
      if arg.None? {
        return Some(columns);
      }
      var toAdd := AsList(arg.value);
      var i := 0;
      while i < |toAdd|
        invariant 0 <= i <= |toAdd|
        invariant columns == Accept(old(columns), toAdd[..i], name)
      {
        assert toAdd[..i + 1][..i] == toAdd[..i];
        var column := toAdd[i];
        if column in columns {
          i := i + 1;
          continue;
        }
        var (_, t) := SplitTableColumn(column);
        if t.Some? && t.value != name {
          i := i + 1;
          continue;
        }
        columns := columns + [column];
        i := i + 1;
      }
      assert toAdd[..|toAdd|] == toAdd;
      return None;
    }

    /** `alias(alias_table)`: a new table under the alias whose columns have
        every occurrence of the old name replaced by the alias. */
    method Alias(aliasTable: string) returns (alias: Table)
      ensures fresh(alias) && alias.name == aliasTable
      ensures |alias.columns| == |columns|
      ensures forall k :: 0 <= k < |columns| ==> alias.columns[k] == Replace(columns[k], name, aliasTable)
    {
      alias := new Table(aliasTable, None);
      alias.columns := seq(|columns|, k requires 0 <= k < |columns| reads this => Replace(columns[k], name, aliasTable));
    }
  }

  // ---------------------------------------------------------------------
  // Properties

  /** The columns already there stay, in place. */
  lemma {:induction false} AcceptKeepsExisting(existing: seq<string>, incoming: seq<string>, name: string)
    ensures var r := Accept(existing, incoming, name);
      |r| >= |existing| && r[..|existing|] == existing
    decreases |incoming|
  {
    if |incoming| > 0 {
      AcceptKeepsExisting(existing, incoming[..|incoming| - 1], name);
    }
  }

  /** Every column added was offered and belongs to the table. */
  lemma {:induction false} AcceptAddsOnlyOffered(existing: seq<string>, incoming: seq<string>, name: string)
    ensures var r := Accept(existing, incoming, name);
      |r| >= |existing| && forall k :: |existing| <= k < |r| ==> r[k] in incoming && Belongs(r[k], name)
    decreases |incoming|
  {
    if |incoming| > 0 {
      var front := incoming[..|incoming| - 1];
      AcceptAddsOnlyOffered(existing, front, name);
      assert forall c :: c in front ==> c in incoming;
    }
  }

  /** Every offered column that belongs to the table ends up in the list. */
  lemma {:induction false} AcceptTakesEveryBelonging(existing: seq<string>, incoming: seq<string>, name: string)
    ensures var r := Accept(existing, incoming, name);
      forall c :: c in incoming && Belongs(c, name) ==> c in r
    decreases |incoming|
  {
    if |incoming| > 0 {
      var front := incoming[..|incoming| - 1];
      AcceptTakesEveryBelonging(existing, front, name);
      var r := Accept(existing, incoming, name);
      forall c | c in incoming && Belongs(c, name) ensures c in r {
        if c != incoming[|incoming| - 1] {
          var k :| 0 <= k < |incoming| && incoming[k] == c;
          assert front[k] == c;
        }
      }
    }
  }

  /** `columns` never adds a column that is already there, so a list
      without duplicates stays without duplicates. */
  lemma {:induction false} AcceptKeepsNoDuplicates(existing: seq<string>, incoming: seq<string>, name: string)
    requires NoDuplicates(existing)
    ensures NoDuplicates(Accept(existing, incoming, name))
    decreases |incoming|
  {
    if |incoming| > 0 {
      AcceptKeepsNoDuplicates(existing, incoming[..|incoming| - 1], name);
    }
  }

  /** A qualified column `table.column` of the aliased table comes out as
      `alias.column`, provided the old name occurs in it only once. */
  lemma AliasRenamesQualified(name: string, aliasTable: string, column: string)
    requires |name| > 0 && !Contains("." + column, name)
    ensures Replace(name + "." + column, name, aliasTable) == aliasTable + "." + column
  {
    var s := name + "." + column;
    assert OccursAt(s, name, 0);
    assert Find(s, name) == Some(0);
    assert s[|name|..] == "." + column;
    assert Split(s, name) == ["", "." + column];
    assert Join(aliasTable, ["", "." + column]) == "" + aliasTable + ("." + column);
  }
}
