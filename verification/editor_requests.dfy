/** The shape of an incoming request: which action it asks for, and the
    conversion of flat form keys such as `data[57][last_name]` into nested
    dictionaries. */
module Requests {
  import opened Wrappers
  import opened PyStrings
  import opened PyValues
  import opened NestedData

  /** The action a request asks for. */
  datatype Action = Read | Create | Edit | Delete | Upload | Unknown

  /** `action(data)`. */
  function ActionOf(data: map<string, Value>): Action {
    if "action" !in data then Read
    else if Eq(data["action"], Str("remove")) then Delete
    else if Eq(data["action"], Str("edit")) then Edit
    else if Eq(data["action"], Str("create")) then Create
    else Unknown
  }

  /** The word a client sends for a writing action. */
  function ActionWord(a: Action): string
    requires a == Create || a == Edit || a == Delete
  {
    match a
    case Create => "create"
    case Edit => "edit"
    case Delete => "remove"
  }

  /** No `action` key means a read; each of the three writing words selects
      its action; anything else is unknown; an upload is never recognised. */
  lemma ActionCases(data: map<string, Value>)
    ensures ActionOf(data) != Upload
    ensures ActionOf(data) == Read <==> "action" !in data
    ensures ActionOf(data) == Delete <==> "action" in data && data["action"] == Str("remove")
    ensures ActionOf(data) == Edit <==> "action" in data && data["action"] == Str("edit")
    ensures ActionOf(data) == Create <==> "action" in data && data["action"] == Str("create")
    ensures ActionOf(data) == Unknown <==>
      "action" in data && data["action"] !in {Str("remove"), Str("edit"), Str("create")}
  {
    if "action" in data {
      var v := data["action"];
      if v.Str? {
        assert Eq(v, Str("remove")) <==> v.s == "remove";
      }
    }
  }

  /** Sending the word of a writing action selects that action. */
  lemma ActionWordRoundTrip(a: Action, rest: map<string, Value>)
    requires a == Create || a == Edit || a == Delete
    ensures ActionOf(rest["action" := Str(ActionWord(a))]) == a
  {
  }

  // ---------------------------------------------------------------------
  // Form keys

  /** The path a form key stands for: the key split at `[`, with trailing
      `]` characters stripped from every piece. */
  function FormPath(key: string): (path: seq<string>)
    ensures |path| >= 1
  {
    var keys := Split(key, "[");
    seq(|keys|, k requires 0 <= k < |keys| => RStripChar(keys[k], ']'))
  }

  /** The dictionary to descend into at `key`: `setdefault(key, {})`.  A
      value that is not a dictionary has no `setdefault` when the walk goes
      on, and takes no item assignment when it is the last container. */
  function ContainerAt(m: map<string, Value>, key: string, last: bool): Res<map<string, Value>> {
    if key !in m then Success(map[])
    else if m[key].Dict? then Success(m[key].m)
    else Failure(if last then TypeError else AttributeError)
  }

  /** The dictionary `m` after `value` is stored at `path`. */
  function SetPath(m: map<string, Value>, path: seq<string>, value: Value): Res<map<string, Value>>
    requires |path| >= 1
    decreases |path|
  {
    if |path| == 1 then Success(m[path[0] := value])
    else
      var child :- ContainerAt(m, path[0], |path| == 2);
      var sub :- SetPath(child, path[1..], value);
      Success(m[path[0] := Dict(sub)])
  }

  /** A form entry: key and submitted value, in submission order. */
  type FormItem = (string, Value)

  /** What `__convert_data_to_dict` returns for the form entries. */
  function Converted(items: seq<FormItem>): Res<map<string, Value>>
    decreases |items|
  {
    if |items| == 0 then Success(map[])
    else
      var before :- Converted(items[..|items| - 1]);
      var (key, value) := items[|items| - 1];
      SetPath(before, FormPath(key), value)
  }

  /** The walk and store for one entry: descend with `setdefault`, then
      store the value.  The dictionaries passed through are rebuilt from the
      bottom up, since the model's values are immutable. */
  method StoreAtPath(m: map<string, Value>, path: seq<string>, value: Value) returns (r: Res<map<string, Value>>)
    requires |path| >= 1
    ensures r == SetPath(m, path, value)
  {
    var frames := [m];
    var i := 0;
    while i < |path| - 1
      invariant 0 <= i <= |path| - 1 && |frames| == i + 1 && frames[0] == m
      invariant forall j :: 0 <= j < i ==> ContainerAt(frames[j], path[j], |path| - j == 2) == Success(frames[j + 1])
      invariant SetPath(m, path, value).Failure? ==> SetPath(frames[i], path[i..], value).Failure?
      invariant SetPath(frames[i], path[i..], value).Failure? ==> SetPath(m, path, value) == SetPath(frames[i], path[i..], value)
    {
      SetPathStep(frames[i], path[i..], value);
      assert path[i..][1..] == path[i + 1..];
      var child := ContainerAt(frames[i], path[i], |path| - i == 2);
      if child.Failure? {
        return Failure(child.error);
      }
      frames := frames + [child.value];
      i := i + 1;
    }
    var acc := frames[i][path[i] := value];
    var j := i;
    while j > 0
      invariant 0 <= j <= i
      invariant SetPath(frames[j], path[j..], value) == Success(acc)
    {
      j := j - 1;
      assert path[j..][1..] == path[j + 1..];
      acc := frames[j][path[j] := Dict(acc)];
    }
    assert path[0..] == path;
    return Success(acc);
  }

  /** One step of the walk: a failing container fails the store, and a
      failure further down is the failure of the whole. */
  lemma SetPathStep(m: map<string, Value>, path: seq<string>, value: Value)
    requires |path| >= 2
    ensures ContainerAt(m, path[0], |path| == 2).Failure? ==>
      SetPath(m, path, value) == Failure(ContainerAt(m, path[0], |path| == 2).error)
    ensures ContainerAt(m, path[0], |path| == 2).Success? ==>
      var child := ContainerAt(m, path[0], |path| == 2).value;
      (SetPath(child, path[1..], value).Failure? ==> SetPath(m, path, value) == SetPath(child, path[1..], value))
      && (SetPath(m, path, value).Failure? ==> SetPath(child, path[1..], value).Failure?)
  {
  }

  /** `__convert_data_to_dict(data)`. */
  method ConvertDataToDict(items: seq<FormItem>) returns (r: Res<map<string, Value>>)
    ensures r == Converted(items)
  {
    var nested: map<string, Value> := map[];
    for k := 0 to |items|
      invariant Converted(items[..k]) == Success(nested)
    {
      assert items[..k + 1][..k] == items[..k];
      var (key, value) := items[k];
      var stored := StoreAtPath(nested, FormPath(key), value);
      if stored.Failure? {
        ConvertedPrefixFailure(items, k + 1);
        return Failure(stored.error);
      }
      nested := stored.value;
    }
    assert items[..|items|] == items;
    return Success(nested);
  }

  /** A failure on a prefix of the entries is the failure of the whole. */
  lemma {:induction false} ConvertedPrefixFailure(items: seq<FormItem>, k: nat)
    requires k <= |items| && Converted(items[..k]).Failure?
    ensures Converted(items) == Converted(items[..k])
    decreases |items| - k
  {
    if k == |items| {
      assert items[..k] == items;
    } else {
      var n := |items| - 1;
      assert items[..n][..k] == items[..k];
      ConvertedPrefixFailure(items[..n], k);
    }
  }

  // ---------------------------------------------------------------------
  // Properties

  /** A piece without a trailing `]` loses exactly the one `]` after it. */
  lemma StripClosing(n: string)
    requires |n| == 0 || n[|n| - 1] != ']'
    ensures RStripChar(n + "]", ']') == n
  {
    var s := n + "]";
    var r := RStripChar(s, ']');
  }

  /** The bracketed form key of a path: `a[b][c]` for `[a, b, c]`. */
  function FormKey(names: seq<string>): string
    requires |names| >= 1
  {
    Join("[", [names[0]] + seq(|names| - 1, k requires 0 <= k < |names| - 1 => names[k + 1] + "]"))
  }

  /** A path whose names hold no `[` and end in no `]` is recovered from its
      form key. */
  lemma FormKeyPath(names: seq<string>)
    requires |names| >= 1
    requires forall k :: 0 <= k < |names| ==> '[' !in names[k] && (|names[k]| == 0 || names[k][|names[k]| - 1] != ']')
    ensures FormPath(FormKey(names)) == names
  {
    var pieces := [names[0]] + seq(|names| - 1, k requires 0 <= k < |names| - 1 => names[k + 1] + "]");
    forall k | 0 <= k < |pieces| ensures NoEarlySep(pieces[k], "[") {
      NoEarlySepFromFirstChar(pieces[k], "[");
    }
    SplitJoin(pieces, "[");
    var path := FormPath(FormKey(names));
    forall k | 0 <= k < |names| ensures path[k] == names[k] {
      if k == 0 {
        var r := RStripChar(names[0], ']');
      } else {
        assert pieces[k] == names[k] + "]";
        StripClosing(names[k]);
      }
    }
  }

  /** A single form entry becomes nested single-key dictionaries along its
      path: `a[b][c] = v` gives `{'a': {'b': {'c': v}}}`. */
  lemma SingleEntryNests(key: string, value: Value)
    ensures Converted([(key, value)]) == Success(Nest(FormPath(key), value).m)
  {
    assert [(key, value)][..0] == [];
    SetPathEmpty(FormPath(key), value);
  }

  lemma {:induction false} SetPathEmpty(path: seq<string>, value: Value)
    requires |path| >= 1
    ensures SetPath(map[], path, value) == Success(Nest(path, value).m)
    decreases |path|
  {
    if |path| > 1 {
      SetPathEmpty(path[1..], value);
    }
  }

  /** A key without `[` stays at the top level (with trailing `]` stripped)
      and overwrites whatever was stored there. */
  lemma TopLevelKey(items: seq<FormItem>, key: string, value: Value, before: map<string, Value>)
    requires '[' !in key && Converted(items) == Success(before)
    ensures Converted(items + [(key, value)]) == Success(before[RStripChar(key, ']') := value])
  {
    assert (items + [(key, value)])[..|items|] == items;
    NoOccurrence(key, '[');
    assert Split(key, "[") == [key];
  }

  lemma NoOccurrence(s: string, c: char)
    requires c !in s
    ensures Find(s, [c]).None?
  {
    ContainsChar(s, c);
  }

  /** A successful store leaves every other top-level key as it was and
      can be read back along its path. */
  lemma {:induction false} SetPathReadBack(m: map<string, Value>, path: seq<string>, value: Value, r: map<string, Value>)
    requires |path| >= 1 && SetPath(m, path, value) == Success(r)
    ensures forall k :: k in m && k != path[0] ==> k in r && r[k] == m[k]
    ensures path[0] in r
    ensures Descend(path, Dict(r), |path|) == Some(value)
    decreases |path|
  {
    if |path| > 1 {
      var child := ContainerAt(m, path[0], |path| == 2).value;
      var sub := SetPath(child, path[1..], value).value;
      SetPathReadBack(child, path[1..], value, sub);
    }
  }

  /** A value that is not a dictionary blocks a deeper key: `a=x` followed
      by `a[b]=y` fails, and `a=x` followed by `a[b][c]=y` fails too. */
  lemma ScalarBlocksDeeperKey(a: string, b: string, c: string, x: string, y: Value)
    ensures SetPath(map[a := Str(x)], [a, b], y) == Failure(TypeError)
    ensures SetPath(map[a := Str(x)], [a, b, c], y) == Failure(AttributeError)
  {
  }
}
