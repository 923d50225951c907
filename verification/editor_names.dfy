/** Names of tables and columns as the request engine takes them apart:
    `db.table.column` parts, `table as alias` aliases, and the three ways the
    engine decides which side of a left join links to the parent table. */
module Names {
  import opened Wrappers
  import opened PyStrings
  import opened Utils
  import opened PyValues

  /** The parts of a field name. */
  datatype Parts = Parts(db: Option<string>, table: Option<string>, column: Option<string>)

  /** The parts of `name`: an undotted name is a column; two dot-separated
      pieces are table and column; three are database, table and column;
      more leave every part empty. */
  function NameParts(name: string): (p: Parts)
    ensures p.db.Some? ==> p.table.Some? && p.column.Some?
    ensures p.table.Some? ==> p.column.Some?
  {
    if !Contains(name, ".") then Parts(None, None, Some(name))
    else
      var a := Split(name, ".");
      if |a| == 3 then Parts(Some(a[0]), Some(a[1]), Some(a[2]))
      else if |a| == 2 then Parts(None, Some(a[0]), Some(a[1]))
      else Parts(None, None, None)
  }

  /** `_part(name, type)`: `'db'`, `'table'`, or the column for any other
      type. */
  function Part(name: string, kind: string): Option<string> {
    var p := NameParts(name);
    if kind == "db" then p.db else if kind == "table" then p.table else p.column
  }

  /** `__alias(name, type)`: with ` as ` (in any case) the lower-cased name
      is split there; otherwise with a space the name is split at spaces; the
      second piece is the alias, the first the original name. */
  function Alias(name: string, kind: string): string {
    var lower := Lower(name);
    if Contains(lower, " as ") then
      SplitHasTwo(lower, " as ");
      var a := Split(lower, " as ");
      if kind == "alias" then a[1] else a[0]
    else if ' ' in name then
      ContainsChar(name, ' ');
      SplitHasTwo(name, " ");
      var a := Split(name, " ");
      if kind == "alias" then a[1] else a[0]
    else name
  }

  /** `__get_table_from_join(joined_table)`: the third space-separated word
      when the name holds ` as `, otherwise the name.  The spaces around
      ` as ` are spaces of the name itself, so there always is a third
      word. */
  function JoinTableName(joined: string): string {
    if !Contains(Lower(joined), " as ") then joined
    else
      AsHasTwoSpaces(joined);
      Split(joined, " ")[2]
  }

  /** A name whose lower-cased form holds ` as ` splits at spaces into at
      least three words. */
  lemma AsHasTwoSpaces(name: string)
    requires Contains(Lower(name), " as ")
    ensures |Split(name, " ")| >= 3
  {
    var j: nat :| OccursAt(Lower(name), " as ", j);
    assert Lower(name)[j..j + 4][0] == ' ' && Lower(name)[j..j + 4][3] == ' ';
    assert name[j] == ' ' && name[j + 3] == ' ';
    SplitCharTwice(name, ' ', j, j + 3);
  }

  /** A configured left join. */
  datatype LeftJoin = LeftJoin(table: string, field1: string, operator: string, field2: string)

  /** Which join field links to the parent table and which to the child. */
  datatype Roles = Roles(parent: string, child: string)

  /** The table part of `field1` as `_insert_or_update` computes it: the
      database part, when non-empty, is put in front. */
  function QualifiedTablePart(field: string): Option<string> {
    var p := NameParts(field);
    if p.db.Some? && |p.db.value| > 0 && p.table.Some? then Some(p.db.value + "." + p.table.value)
    else p.table
  }

  /** Roles when writing: `field1` is the child link when its table part is
      the join's alias. */
  function WriteRoles(j: LeftJoin): Roles {
    if QualifiedTablePart(j.field1) == Some(Alias(j.table, "alias")) then Roles(j.field2, j.field1)
    else Roles(j.field1, j.field2)
  }

  /** Roles when reading: `field1` is the joined side when its table part is
      the joined table's name. */
  function ReadRoles(j: LeftJoin): Roles {
    if SplitTableColumn(j.field1).1 == Some(JoinTableName(j.table)) then Roles(j.field2, j.field1)
    else Roles(j.field1, j.field2)
  }

  /** Roles when removing: `field1` is the child link when it starts with
      the join's table name. */
  function RemoveRoles(j: LeftJoin): Roles {
    if StartsWith(j.field1, j.table) then Roles(j.field2, j.field1)
    else Roles(j.field1, j.field2)
  }

  predicate StartsWith(s: string, prefix: string) {
    |prefix| <= |s| && s[..|prefix|] == prefix
  }

  // ---------------------------------------------------------------------
  // Properties

  /** Splitting dot-free pieces joined by dots gives them back. */
  lemma SplitDotted(pieces: seq<string>)
    requires |pieces| >= 2
    requires forall k :: 0 <= k < |pieces| ==> '.' !in pieces[k]
    ensures Contains(Join(".", pieces), ".")
    ensures Split(Join(".", pieces), ".") == pieces
  {
    forall k | 0 <= k < |pieces| ensures NoEarlySep(pieces[k], ".") {
      NoEarlySepFromFirstChar(pieces[k], ".");
    }
    SplitJoin(pieces, ".");
    var s := Join(".", pieces);
    assert s == pieces[0] + "." + Join(".", pieces[1..]);
    assert OccursAt(s, ".", |pieces[0]|);
  }

  /** Parts of a two-piece name. */
  lemma TableColumnParts(t: string, c: string)
    requires '.' !in t && '.' !in c
    ensures NameParts(t + "." + c) == Parts(None, Some(t), Some(c))
  {
    SplitDotted([t, c]);
    assert Join(".", [t, c]) == t + "." + c;
  }

  /** Parts of a three-piece name. */
  lemma DbTableColumnParts(d: string, t: string, c: string)
    requires '.' !in d && '.' !in t && '.' !in c
    ensures NameParts(d + "." + t + "." + c) == Parts(Some(d), Some(t), Some(c))
  {
    SplitDotted([d, t, c]);
    JoinThree(".", [d, t, c]);
  }

  /** A name without a dot is all column. */
  lemma ColumnOnly(c: string)
    requires '.' !in c
    ensures NameParts(c) == Parts(None, None, Some(c))
  {
    ContainsChar(c, '.');
  }

  /** Every part `NameParts` gives is free of dots, and the parts present
      joined with dots give back the name. */
  lemma PartsRebuildName(name: string)
    ensures var p := NameParts(name);
      (p.column.Some? ==> !Contains(p.column.value, "."))
      && (p.table.Some? ==> !Contains(p.table.value, "."))
      && (p.db.Some? ==> !Contains(p.db.value, "."))
      && (p.column.Some? && p.table.None? ==> p.column.value == name)
      && (p.db.None? && p.table.Some? ==> p.table.value + "." + p.column.value == name)
      && (p.db.Some? ==> p.db.value + "." + p.table.value + "." + p.column.value == name)
  {
    if Contains(name, ".") {
      var a := Split(name, ".");
      JoinSplit(name, ".");
      if |a| == 2 {
        JoinTwo(".", a);
      } else if |a| == 3 {
        JoinThree(".", a);
      }
    }
  }

  /** Two pieces free of the separator's first character, joined by the
      separator, split back into the two. */
  lemma SplitTwo(t: string, a: string, sep: string)
    requires |sep| > 0 && sep[0] !in t && sep[0] !in a
    ensures Contains(t + sep + a, sep)
    ensures Split(t + sep + a, sep) == [t, a]
  {
    NoEarlySepFromFirstChar(t, sep);
    NoEarlySepFromFirstChar(a, sep);
    SplitJoin([t, a], sep);
    assert Join(sep, [t, a]) == t + sep + a;
    assert OccursAt(t + sep + a, sep, |t|);
  }

  lemma {:induction false} LowerAppend(a: string, b: string)
    ensures Lower(a + b) == Lower(a) + Lower(b)
  {
    var l := Lower(a + b);
    assert forall k :: 0 <= k < |a| ==> (a + b)[k] == a[k];
    assert forall k :: |a| <= k < |a + b| ==> (a + b)[k] == b[k - |a|];
  }

  /** Lower-casing neither adds nor removes spaces. */
  lemma LowerSpaces(s: string)
    ensures ' ' in Lower(s) <==> ' ' in s
  {
    var l := Lower(s);
    if ' ' in l {
      var k :| 0 <= k < |l| && l[k] == ' ';
      assert s[k] == ' ';
    }
    if ' ' in s {
      var k :| 0 <= k < |s| && s[k] == ' ';
      assert l[k] == ' ';
    }
  }

  /** A name with no space holds no ` as `. */
  lemma NoSpaceNoAs(name: string)
    requires ' ' !in name
    ensures !Contains(name, " as ")
  {
    forall j: nat ensures !OccursAt(name, " as ", j) {
      if j + 4 <= |name| {
        assert name[j..j + 4][0] == name[j];
      }
    }
  }

  /** A name with a single space holds no ` as `, which needs two. */
  lemma NoAs(t: string, a: string)
    requires ' ' !in t && ' ' !in a
    ensures !Contains(t + " " + a, " as ")
  {
    var name := t + " " + a;
    forall k | 0 <= k < |name| && k != |t| ensures name[k] != ' ' {
      if k < |t| {
        assert name[k] == t[k];
      } else {
        assert name[k] == a[k - |t| - 1];
      }
    }
    forall j: nat ensures !OccursAt(name, " as ", j) {
      if j + 4 <= |name| {
        assert name[j..j + 4][0] == name[j] && name[j..j + 4][3] == name[j + 3];
      }
    }
  }

  /** A name without spaces is its own alias and original. */
  lemma AliasPlain(name: string, kind: string)
    requires ' ' !in name
    ensures Alias(name, kind) == name
  {
    LowerSpaces(name);
    NoSpaceNoAs(Lower(name));
  }

  /** `t as a` names table `t` under alias `a`, both lower-cased (the
      keyword may be written in any case). */
  lemma AliasAs(t: string, a: string)
    requires ' ' !in t && ' ' !in a
    ensures Alias(t + " as " + a, "alias") == Lower(a)
    ensures Alias(t + " as " + a, "orig") == Lower(t)
  {
    assert Lower(" as ") == " as ";
    LowerAppend(t + " as ", a);
    LowerAppend(t, " as ");
    LowerSpaces(t);
    LowerSpaces(a);
    SplitTwo(Lower(t), Lower(a), " as ");
  }

  /** `t a` names table `t` under alias `a`, both kept as written. */
  lemma AliasSpace(t: string, a: string)
    requires ' ' !in t && ' ' !in a
    ensures Alias(t + " " + a, "alias") == a
    ensures Alias(t + " " + a, "orig") == t
  {
    var name := t + " " + a;
    assert Lower(" ") == " ";
    LowerAppend(t + " ", a);
    LowerAppend(t, " ");
    LowerSpaces(t);
    LowerSpaces(a);
    NoAs(Lower(t), Lower(a));
    SplitTwo(t, a, " ");
    assert name[|t|] == ' ';
  }

  /** The joined table's name without ` as ` is the name itself. */
  lemma JoinTableNamePlain(t: string)
    requires ' ' !in t
    ensures JoinTableName(t) == t
  {
    LowerSpaces(t);
    NoSpaceNoAs(Lower(t));
  }

  /** The joined table's name with ` as ` is the word after it. */
  lemma JoinTableNameAliased(t: string, a: string)
    requires ' ' !in t && ' ' !in a
    ensures JoinTableName(t + " as " + a) == a
  {
    var name := t + " as " + a;
    LowerHasAs(t, a);
    NoEarlySepFromFirstChar(t, " ");
    NoEarlySepFromFirstChar("as", " ");
    NoEarlySepFromFirstChar(a, " ");
    SplitJoin([t, "as", a], " ");
    JoinThree(" ", [t, "as", a]);
    SpacedAs(t, a);
  }

  lemma SpacedAs(t: string, a: string)
    ensures t + " " + "as" + " " + a == t + " as " + a
  {
    assert " " + "as" + " " == " as ";
    assert t + " " + "as" + " " + a == t + (" " + "as" + " ") + a;
  }

  lemma LowerHasAs(t: string, a: string)
    requires ' ' !in t && ' ' !in a
    ensures Contains(Lower(t + " as " + a), " as ")
  {
    assert Lower(" as ") == " as ";
    LowerAppend(t + " as ", a);
    LowerAppend(t, " as ");
    LowerSpaces(t);
    LowerSpaces(a);
    SplitTwo(Lower(t), Lower(a), " as ");
  }

  /** Whatever the rule, one field is the parent link and the other the
      child link. */
  lemma RolesSplitTheJoin(j: LeftJoin)
    requires j.field1 != j.field2
    ensures var w := WriteRoles(j); {w.parent, w.child} == {j.field1, j.field2}
    ensures var r := ReadRoles(j); {r.parent, r.child} == {j.field1, j.field2}
    ensures var d := RemoveRoles(j); {d.parent, d.child} == {j.field1, j.field2}
    ensures WriteRoles(j).child == j.field1 <==> QualifiedTablePart(j.field1) == Some(Alias(j.table, "alias"))
    ensures ReadRoles(j).child == j.field1 <==> SplitTableColumn(j.field1).1 == Some(JoinTableName(j.table))
    ensures RemoveRoles(j).child == j.field1 <==> StartsWith(j.field1, j.table)
  {
  }

  /** The table parts the rules compare, for a field written `t.c`. */
  lemma QualifiedField(t: string, c: string)
    requires '.' !in t && '.' !in c
    ensures QualifiedTablePart(t + "." + c) == Some(t)
    ensures SplitTableColumn(t + "." + c).1 == Some(t)
    ensures StartsWith(t + "." + c, t)
  {
    TableColumnParts(t, c);
    ContainsChar(t, '.');
    ContainsChar(c, '.');
    SplitQualified(t, c, []);
    assert Join(".", [t, c] + []) == t + "." + c;
    assert (t + "." + c)[..|t|] == t;
  }

  /** For an unaliased join whose `field1` is written `table.column`, the
      three rules agree: `field1` is the child link. */
  lemma RolesAgreeUnaliased(t: string, c: string, other: string)
    requires ' ' !in t && '.' !in t && '.' !in c
    ensures var j := LeftJoin(t, t + "." + c, "=", other);
      WriteRoles(j) == RemoveRoles(j) == Roles(other, t + "." + c)
      && ReadRoles(j) == Roles(other, t + "." + c)
  {
    QualifiedField(t, c);
    AliasPlain(t, "alias");
    JoinTableNamePlain(t);
  }

  /** With an aliased join table the rules disagree: for `t as a` joined
      on `a.c`, writing and reading take `a.c` as the child link, removing
      takes the other field (`a.c` does not start with `t as a`). */
  lemma RolesDisagreeAliased(t: string, a: string, c: string, other: string)
    requires ' ' !in t && ' ' !in a && '.' !in a && '.' !in c && ' ' !in c && Lower(a) == a
    ensures var j := LeftJoin(t + " as " + a, a + "." + c, "=", other);
      WriteRoles(j).child == a + "." + c && ReadRoles(j) == Roles(other, a + "." + c)
      && RemoveRoles(j).child == other
  {
    var table := t + " as " + a;
    var f := a + "." + c;
    QualifiedField(a, c);
    AliasAs(t, a);
    JoinTableNameAliased(t, a);
    forall k | 0 <= k < |f| ensures f[k] != ' ' {
      if k < |a| {
        assert f[k] == a[k];
      } else if k > |a| {
        assert f[k] == c[k - |a| - 1];
      }
    }
    assert table[|t|] == ' ';
  }

  /** Removing tests a bare prefix: with table `t`, a field `ts.c` of
      another table `ts` counts as the child link when removing, but not
      when writing. */
  lemma RemoveRolesPrefixOnly(t: string, suffix: string, c: string, other: string)
    requires ' ' !in t && '.' !in t && '.' !in suffix && '.' !in c && |suffix| > 0
    ensures var j := LeftJoin(t, t + suffix + "." + c, "=", other);
      RemoveRoles(j).child == t + suffix + "." + c && WriteRoles(j).child == other
  {
    var f := t + suffix + "." + c;
    assert '.' !in t + suffix;
    QualifiedField(t + suffix, c);
    AliasPlain(t, "alias");
    assert |t + suffix| != |t|;
    assert QualifiedTablePart(f) != Some(Alias(t, "alias"));
    assert f[..|t|] == t;
    assert StartsWith(f, t);
  }
}
