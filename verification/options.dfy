/** `Options`: the label/value list offered by a select, radio or checkbox
    field.  The database query is not modelled: `Exec` is given the rows the
    query returned. */
module OptionLists {
  import opened Wrappers
  import opened PyStrings
  import opened PyValues

  /** One `{'label': ..., 'value': ...}` option. */
  datatype Entry = Entry(text: string, value: Value)

  /** The argument of `label`: one column or a list of columns. */
  datatype LabelArg = One(column: string) | Many(columns: seq<string>)

  /** A recorded left join: table, the two linked columns and the operator. */
  datatype JoinSpec = JoinSpec(table: string, field1: string, operator: string, field2: string)

  /** A result row: column name to value. */
  type Row = map<string, Value>

  /** `row[column]` for every label column, in order. */
  function LabelValues(row: Row, labels: seq<string>): Res<seq<Value>>
    decreases |labels|
  {
    if |labels| == 0 then Success([])
    else
      var front :- LabelValues(row, labels[..|labels| - 1]);
      var c := labels[|labels| - 1];
      if c in row then Success(front + [row[c]]) else Failure(KeyError(c))
  }

  /** `' '.join(values)`: every value must be a string. */
  function JoinStrings(values: seq<Value>): Res<string> {
    if forall k :: 0 <= k < |values| ==> values[k].Str? then
      Success(Join(" ", seq(|values|, k requires 0 <= k < |values| => values[k].s)))
    else Failure(TypeError)
  }

  /** The default label of a row: its label columns joined by single spaces. */
  function RowLabel(row: Row, labels: seq<string>): Res<string> {
    var values :- LabelValues(row, labels);
    JoinStrings(values)
  }

  /** The option a result row gives. */
  function RowEntry(row: Row, labels: seq<string>, valueColumn: string): Res<Entry> {
    var text :- RowLabel(row, labels);
    if valueColumn in row then Success(Entry(text, row[valueColumn])) else Failure(KeyError(valueColumn))
  }

  /** The options of the result rows, in row order. */
  function RowEntries(rows: seq<Row>, labels: seq<string>, valueColumn: string): Res<seq<Entry>>
    decreases |rows|
  {
    if |rows| == 0 then Success([])
    else
      var front :- RowEntries(rows[..|rows| - 1], labels, valueColumn);
      var e :- RowEntry(rows[|rows| - 1], labels, valueColumn);
      Success(front + [e])
  }

  /** A failure on a prefix of the label columns is the failure of the whole. */
  lemma {:induction false} LabelValuesPrefixFailure(row: Row, labels: seq<string>, k: nat)
    requires k <= |labels| && LabelValues(row, labels[..k]).Failure?
    ensures LabelValues(row, labels) == LabelValues(row, labels[..k])
    decreases |labels| - k
  {
    if k == |labels| {
      assert labels[..k] == labels;
    } else {
      var n := |labels| - 1;
      assert labels[..n][..k] == labels[..k];
      LabelValuesPrefixFailure(row, labels[..n], k);
    }
  }

  /** A failure on a prefix of the rows is the failure of the whole. */
  lemma {:induction false} RowEntriesPrefixFailure(rows: seq<Row>, labels: seq<string>, valueColumn: string, k: nat)
    requires k <= |rows| && RowEntries(rows[..k], labels, valueColumn).Failure?
    ensures RowEntries(rows, labels, valueColumn) == RowEntries(rows[..k], labels, valueColumn)
    decreases |rows| - k
  {
    if k == |rows| {
      assert rows[..k] == rows;
    } else {
      var n := |rows| - 1;
      assert rows[..n][..k] == rows[..k];
      RowEntriesPrefixFailure(rows[..n], labels, valueColumn, k);
    }
  }

  // ---------------------------------------------------------------------
  // Stable sorting by label (Python's `sorted(out, key=lambda x: x['label'])`)

  predicate SortedByLabel(s: seq<Entry>) {
    forall i, j :: 0 <= i < j < |s| ==> LexLe(s[i].text, s[j].text)
  }

  /** `x` inserted into a sorted list after every entry whose label is not
      greater than its own. */
  function Insert(sorted: seq<Entry>, x: Entry): seq<Entry>
    decreases |sorted|
  {
    if |sorted| == 0 then [x]
    else if LexLe(sorted[|sorted| - 1].text, x.text) then sorted + [x]
    else Insert(sorted[..|sorted| - 1], x) + [sorted[|sorted| - 1]]
  }

  /** Insertion sort, one entry at a time from the left. */
  function SortByLabel(s: seq<Entry>): seq<Entry>
    decreases |s|
  {
    if |s| == 0 then [] else Insert(SortByLabel(s[..|s| - 1]), s[|s| - 1])
  }

  /** The entries carrying one label, in order. */
  function WithLabel(s: seq<Entry>, t: string): seq<Entry>
    decreases |s|
  {
    if |s| == 0 then []
    else WithLabel(s[..|s| - 1], t) + (if s[|s| - 1].text == t then [s[|s| - 1]] else [])
  }

  lemma {:induction false} WithLabelAppend(a: seq<Entry>, b: seq<Entry>, t: string)
    ensures WithLabel(a + b, t) == WithLabel(a, t) + WithLabel(b, t)
    decreases |b|
  {
    if |b| == 0 {
      assert a + b == a;
    } else {
      assert (a + b)[..|a + b| - 1] == a + b[..|b| - 1];
      assert (a + b)[|a + b| - 1] == b[|b| - 1];
      WithLabelAppend(a, b[..|b| - 1], t);
    }
  }

  lemma {:induction false} InsertPermutes(sorted: seq<Entry>, x: Entry)
    ensures multiset(Insert(sorted, x)) == multiset(sorted) + multiset{x}
    decreases |sorted|
  {
    if |sorted| > 0 {
      var n := |sorted| - 1;
      assert sorted == sorted[..n] + [sorted[n]];
      if !LexLe(sorted[n].text, x.text) {
        InsertPermutes(sorted[..n], x);
      }
    }
  }

  lemma {:induction false} InsertSorted(sorted: seq<Entry>, x: Entry)
    requires SortedByLabel(sorted)
    ensures SortedByLabel(Insert(sorted, x))
    decreases |sorted|
  {
    if |sorted| > 0 {
      var n := |sorted| - 1;
      var last := sorted[n];
      var front := sorted[..n];
      if LexLe(last.text, x.text) {
        AppendAfterSorted(sorted, x);
      } else {
        InsertSorted(front, x);
        InsertBelow(front, x, last);
        AppendAfterSorted(Insert(front, x), last);
      }
    }
  }

  /** Appending an entry no smaller than the last keeps a list sorted. */
  lemma AppendAfterSorted(sorted: seq<Entry>, x: Entry)
    requires SortedByLabel(sorted)
    requires |sorted| > 0 ==> LexLe(sorted[|sorted| - 1].text, x.text)
    ensures SortedByLabel(sorted + [x])
  {
    var r := sorted + [x];
    forall i, j | 0 <= i < j < |r| ensures LexLe(r[i].text, r[j].text) {
      if j == |sorted| && i < |sorted| - 1 {
        LexLeTransitive(sorted[i].text, sorted[|sorted| - 1].text, x.text);
      }
    }
  }

  /** Every entry of `front` with `x` inserted is below a bound that lies
      above `x` and above every entry of `front`. */
  lemma InsertBelow(front: seq<Entry>, x: Entry, last: Entry)
    requires SortedByLabel(front + [last]) && !LexLe(last.text, x.text)
    ensures var r := Insert(front, x);
      |r| > 0 && LexLe(r[|r| - 1].text, last.text)
  {
    InsertPermutes(front, x);
    LexLeTotal(last.text, x.text);
    var r := Insert(front, x);
    assert r[|r| - 1] in multiset(r);
    if r[|r| - 1] != x {
      assert r[|r| - 1] in multiset(front);
      var k :| 0 <= k < |front| && front[k] == r[|r| - 1];
      assert (front + [last])[k] == front[k] && (front + [last])[|front|] == last;
    }
  }

  /** The entries of one label in a single-entry list. */
  lemma WithLabelOne(e: Entry, t: string)
    ensures WithLabel([e], t) == if e.text == t then [e] else []
  {
    assert [e][..0] == [];
  }

  lemma {:induction false} InsertStable(sorted: seq<Entry>, x: Entry, t: string)
    ensures WithLabel(Insert(sorted, x), t) == WithLabel(sorted, t) + (if x.text == t then [x] else [])
    decreases |sorted|
  {
    if |sorted| == 0 {
      WithLabelOne(x, t);
    } else {
      var n := |sorted| - 1;
      var last := sorted[n];
      var front := sorted[..n];
      if LexLe(last.text, x.text) {
        WithLabelAppend(sorted, [x], t);
        WithLabelOne(x, t);
      } else {
        InsertStable(front, x, t);
        InsertOverLast(front, last, x, t);
      }
    }
  }

  /** The label-`t` entries when `x` goes before a greater `last`: `x` and
      `last` cannot both carry `t`, so their order does not matter. */
  lemma InsertOverLast(front: seq<Entry>, last: Entry, x: Entry, t: string)
    requires !LexLe(last.text, x.text)
    requires WithLabel(Insert(front, x), t) == WithLabel(front, t) + (if x.text == t then [x] else [])
    ensures WithLabel(Insert(front + [last], x), t) == WithLabel(front + [last], t) + (if x.text == t then [x] else [])
  {
    InsertPastLast(front, last, x);
    var ins := Insert(front, x);
    WithLabelAppend(front, [last], t);
    WithLabelAppend(ins, [last], t);
    WithLabelOne(last, t);
    if x.text == t {
      LexLeReflexive(x.text);
    }
  }

  /** An entry ordered before the last one is inserted in front of it. */
  lemma InsertPastLast(front: seq<Entry>, last: Entry, x: Entry)
    requires !LexLe(last.text, x.text)
    ensures Insert(front + [last], x) == Insert(front, x) + [last]
  {
    var sorted := front + [last];
    assert sorted[..|sorted| - 1] == front && sorted[|sorted| - 1] == last;
  }

  /** Sorting by label orders the entries, keeps every one of them, and
      keeps the entries of each label in their original order (stability). */
  lemma SortByLabelCorrect(s: seq<Entry>)
    ensures SortedByLabel(SortByLabel(s))
    ensures multiset(SortByLabel(s)) == multiset(s)
    ensures forall t :: WithLabel(SortByLabel(s), t) == WithLabel(s, t)
  {
    SortByLabelSorted(s);
    SortByLabelPermutes(s);
    forall t ensures WithLabel(SortByLabel(s), t) == WithLabel(s, t) {
      SortByLabelStable(s, t);
    }
  }

  lemma {:induction false} SortByLabelSorted(s: seq<Entry>)
    ensures SortedByLabel(SortByLabel(s))
    decreases |s|
  {
    if |s| > 0 {
      var front := s[..|s| - 1];
      SortByLabelSorted(front);
      InsertSorted(SortByLabel(front), s[|s| - 1]);
    }
  }

  lemma {:induction false} SortByLabelPermutes(s: seq<Entry>)
    ensures multiset(SortByLabel(s)) == multiset(s)
    decreases |s|
  {
    if |s| > 0 {
      var front := s[..|s| - 1];
      var x := s[|s| - 1];
      SortByLabelPermutes(front);
      InsertPermutes(SortByLabel(front), x);
      assert s == front + [x];
    }
  }

  lemma {:induction false} SortByLabelStable(s: seq<Entry>, t: string)
    ensures WithLabel(SortByLabel(s), t) == WithLabel(s, t)
    decreases |s|
  {
    if |s| > 0 {
      var front := s[..|s| - 1];
      var x := s[|s| - 1];
      SortByLabelStable(front, t);
      InsertStable(SortByLabel(front), x, t);
    }
  }

  class Options {
    var table: string
    var value: string
    var labels: seq<string>
    var limit: Option<int>
    var order: string
    var where: Option<Value>
    var manualOpts: seq<Entry>
    var leftJoins: seq<JoinSpec>

    constructor ()
      ensures table == "" && value == "" && labels == [] && limit.None? && order == ""
      ensures where.None? && manualOpts == [] && leftJoins == []
    {
      leftJoins := [];
      table := "";
      value := "";
      labels := [];
      limit := None;
      order := "";
      where := None;
      manualOpts := [];
    }

    /** `add(label, value)`: a manual option, its value defaulting to the label. */
    method Add(text: string, value: Option<Value>)
      modifies this`manualOpts
      ensures manualOpts == old(manualOpts) + [Entry(text, if value.None? then Str(text) else value.value)]
    {
      var v := if value.None? then Str(text) else value.value;
      manualOpts := manualOpts + [Entry(text, v)];
    }

    /** `left_join(table, field1, operator, field2)`: the join is recorded;
        the query never applies it. */
    method LeftJoin(table: string, field1: string, operator: string, field2: string)
      modifies this`leftJoins
      ensures leftJoins == old(leftJoins) + [JoinSpec(table, field1, operator, field2)]
    {
      leftJoins := leftJoins + [JoinSpec(table, field1, operator, field2)];
    }

    /** `label(label)`: with no argument the current columns; a single column
        is stored as a one-element list, a list as given. */
    method Label(arg: Option<LabelArg>) returns (current: Option<seq<string>>)
      modifies this`labels
      ensures arg.None? ==> current == Some(labels) && labels == old(labels)
      ensures arg.Some? && arg.value.One? ==> current.None? && labels == [arg.value.column]
      ensures arg.Some? && arg.value.Many? ==> current.None? && labels == arg.value.columns
    {
      match arg
      case None => return Some(labels);
      case Some(One(c)) => labels := [c]; return None;
      case Some(Many(cs)) => labels := cs; return None;
    }

    /** `table(table)`. */
    method Table(arg: Option<string>) returns (current: Option<string>)
      modifies this`table
      ensures arg.None? ==> current == Some(table) && table == old(table)
      ensures arg.Some? ==> current.None? && table == arg.value
    {
      if arg.None? {
        return Some(table);
      }
      table := arg.value;
      return None;
    }

    /** `value(value)`. */
    method Value(arg: Option<string>) returns (current: Option<string>)
      modifies this`value
      ensures arg.None? ==> current == Some(value) && value == old(value)
      ensures arg.Some? ==> current.None? && value == arg.value
    {
      if arg.None? {
        return Some(value);
      }
      value := arg.value;
      return None;
    }

    /** `limit(limit)`: with no argument the current limit; otherwise the
        limit is stored and then a `ValueError` is raised (limits are not
        supported). */
    method Limit(arg: Option<int>) returns (r: Res<Option<int>>)
      modifies this`limit
      ensures arg.None? ==> r == Success(limit) && limit == old(limit)
      ensures arg.Some? ==> limit == arg && r == Failure(ValueError)
    {
      if arg.None? {
        return Success(limit);
      }
      limit := arg;
      return Failure(ValueError);
    }

    /** `order(order)`: with no argument the current order; otherwise the
        order is stored and then a `ValueError` is raised. */
    method Order(arg: Option<string>) returns (r: Res<string>)
      modifies this`order
      ensures arg.None? ==> r == Success(order) && order == old(order)
      ensures arg.Some? ==> order == arg.value && r == Failure(ValueError)
    {
      if arg.None? {
        return Success(order);
      }
      order := arg.value;
      return Failure(ValueError);
    }

    /** `where(where)`: with no argument the current condition; otherwise the
        condition is stored and then a `ValueError` is raised. */
    method Where(arg: Option<Value>) returns (r: Res<Option<Value>>)
      modifies this`where
      ensures arg.None? ==> r == Success(where) && where == old(where)
      ensures arg.Some? ==> where == arg && r == Failure(ValueError)
    {
      if arg.None? {
        return Success(where);
      }
      where := arg;
      return Failure(ValueError);
    }

    /** What `_exec` returns for the given result rows: one option per row,
        then the manual options, sorted by label unless an order is set. */
    function ExecSpec(rows: seq<Row>): Res<seq<Entry>>
      reads this
    {
      var fromRows :- RowEntries(rows, labels, value);
      var out := fromRows + manualOpts;
      Success(if order == "" then SortByLabel(out) else out)
    }

    /** The default label formatter of `_exec`. */
    method FormatLabel(row: Row) returns (r: Res<string>)
      ensures r == RowLabel(row, labels)
    {
      var a: seq<Value> := [];
      for k := 0 to |labels|
        invariant LabelValues(row, labels[..k]) == Success(a)
      {
        assert labels[..k + 1][..k] == labels[..k];
        var column := labels[k];
        if column !in row {
          LabelValuesPrefixFailure(row, labels, k + 1);
          return Failure(KeyError(column));
        }
        a := a + [row[column]];
      }
      assert labels[..|labels|] == labels;
      r := JoinStrings(a);
    }

    /** The result-shaping tail of `_exec`. */
    method Exec(rows: seq<Row>) returns (r: Res<seq<Entry>>)
      ensures r == ExecSpec(rows)
    {
      var out: seq<Entry> := [];
      for k := 0 to |rows|
        invariant RowEntries(rows[..k], labels, value) == Success(out)
      {
        assert rows[..k + 1][..k] == rows[..k];
        var row := rows[k];
        var text := FormatLabel(row);
        if text.Failure? {
          RowEntriesPrefixFailure(rows, labels, value, k + 1);
          return Failure(text.error);
        }
        if value !in row {
          RowEntriesPrefixFailure(rows, labels, value, k + 1);
          return Failure(KeyError(value));
        }
        out := out + [Entry(text.value, row[value])];
      }
      assert rows[..|rows|] == rows;
      if |manualOpts| > 0 {
        out := out + manualOpts;
      } else {
        assert out + manualOpts == out;
      }
      if order == "" {
        out := SortByLabel(out);
      }
      return Success(out);
    }
  }

  // ---------------------------------------------------------------------
  // Properties

  /** Each result row gives one option: the label columns joined by spaces,
      and the value column. */
  lemma {:induction false} RowEntriesShape(rows: seq<Row>, labels: seq<string>, valueColumn: string, out: seq<Entry>)
    requires RowEntries(rows, labels, valueColumn) == Success(out)
    ensures |out| == |rows|
    ensures forall k :: 0 <= k < |rows| ==>
      RowLabel(rows[k], labels) == Success(out[k].text) && valueColumn in rows[k]
      && out[k].value == rows[k][valueColumn]
    decreases |rows|
  {
    if |rows| > 0 {
      var front := RowEntries(rows[..|rows| - 1], labels, valueColumn).value;
      RowEntriesShape(rows[..|rows| - 1], labels, valueColumn, front);
    }
  }

  /** With one label column of text, the label is that text. */
  lemma SingleLabel(row: Row, column: string, text: string)
    requires column in row && row[column] == Str(text)
    ensures RowLabel(row, [column]) == Success(text)
  {
    assert [column][..0] == [];
    assert LabelValues(row, []) == Success([]);
    assert [] + [row[column]] == [Str(text)];
    assert LabelValues(row, [column]) == Success([Str(text)]);
    assert seq(1, k requires 0 <= k < 1 => [Str(text)][k].s) == [text];
  }

  /** Without an order, the options come out sorted by label, as a
      permutation of the row options followed by the manual ones, with the
      options of each label in that original order; with an order set, the
      manual options simply follow the row options. */
  lemma ExecOrdering(o: Options, rows: seq<Row>)
    requires o.ExecSpec(rows).Success?
    ensures var fromRows := RowEntries(rows, o.labels, o.value).value;
      var out := o.ExecSpec(rows).value;
      && (o.order == "" ==> SortedByLabel(out) && multiset(out) == multiset(fromRows + o.manualOpts)
                            && forall t :: WithLabel(out, t) == WithLabel(fromRows + o.manualOpts, t))
      && (o.order != "" ==> out == fromRows + o.manualOpts)
  {
    var fromRows := RowEntries(rows, o.labels, o.value).value;
    SortByLabelCorrect(fromRows + o.manualOpts);
  }
}
