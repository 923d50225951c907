/** Reading, testing and writing values at dotted paths (`name.first`)
    inside nested dictionaries: `_prop_exists`, `_read_prop` and
    `_write_prop`.  A name without a dot is a single segment. */
module NestedData {
  import opened Wrappers
  import opened PyStrings
  import opened PyValues

  /** The segments of a property name; a name without a dot is one segment. */
  function Segments(name: string): (names: seq<string>)
    ensures |names| >= 1
    ensures !Contains(name, ".") ==> names == [name]
    ensures Contains(name, ".") ==> |names| >= 2
  {
    Split(name, ".")
  }

  function ConflictMessage(name: string): string {
    "A property with the name `" + name + "` already exists. "
    + "This can occur if you have properties which share a prefix - "
    + "for example `name` and `name.first`."
  }

  function DuplicateMessage(name: string): string {
    "Duplicate field detected - a field with the name `" + name + "` already exists"
  }

  /** The value reached from `data` by following the first `j` segments
      through dictionaries, if every one of them is there. */
  function Descend(names: seq<string>, data: Value, j: nat): Option<Value>
    requires j <= |names|
    decreases j
  {
    if j == 0 then Some(data)
    else if data.Dict? && names[0] in data.m then Descend(names[1..], data.m[names[0]], j - 1)
    else None
  }

  // ---------------------------------------------------------------------
  // Specification of the walks

  /** The walk of `_prop_exists` over `names` from `inner`: a missing
      intermediate gives false, the last segment is checked with `in`. */
  function ExistsAt(names: seq<string>, inner: Value): Res<bool>
    requires |names| >= 1
    decreases |names|
  {
    var present :- In(names[0], inner);
    if |names| == 1 then Success(present)
    else if !present then Success(false)
    else
      var next :- Index(inner, names[0]);
      ExistsAt(names[1..], next)
  }

  /** `_prop_exists(name, data)`. */
  function Exists(name: string, data: Value): Res<bool> {
    if data == Null then Success(false) else ExistsAt(Segments(name), data)
  }

  /** The walk of `_read_prop`: a missing intermediate gives `False`, a
      missing last segment gives `None`. */
  function ReadAt(names: seq<string>, inner: Value): Res<Value>
    requires |names| >= 1
    decreases |names|
  {
    var present :- In(names[0], inner);
    if |names| == 1 then (if present then Index(inner, names[0]) else Success(Null))
    else if !present then Success(Bool(false))
    else
      var next :- Index(inner, names[0]);
      ReadAt(names[1..], next)
  }

  /** `_read_prop(name, data)`. */
  function Read(name: string, data: Value): Res<Value> {
    ReadAt(Segments(name), data)
  }

  /** The dictionary `_write_prop` descends into at segment `key`: a fresh
      empty one when the key is absent, an error when it holds a non-dict. */
  function ChildFor(inner: map<string, Value>, key: string, name: string): Res<map<string, Value>> {
    if key !in inner then Success(map[])
    else if inner[key].Dict? then Success(inner[key].m)
    else Failure(Raised(ConflictMessage(name)))
  }

  /** The write of `_write_prop` below the dictionary `inner`. */
  function WriteAt(names: seq<string>, inner: map<string, Value>, value: Value, name: string): Res<map<string, Value>>
    requires |names| >= 1
    decreases |names|
  {
    if |names| == 1 then
      if names[0] in inner then Failure(Raised(DuplicateMessage(name)))
      else Success(inner[names[0] := value])
    else
      var child :- ChildFor(inner, names[0], name);
      var sub :- WriteAt(names[1..], child, value, name);
      Success(inner[names[0] := Dict(sub)])
  }

  /** `_write_prop(out, name, value)`: the new contents of `out`.  A name
      without a dot overwrites; a dotted name never does. */
  function Write(out: map<string, Value>, name: string, value: Value): Res<map<string, Value>> {
    if !Contains(name, ".") then Success(out[name := value])
    else WriteAt(Segments(name), out, value, name)
  }

  /** Nested single-key dictionaries holding `value` at path `names`. */
  function Nest(names: seq<string>, value: Value): Value
    requires |names| >= 1
    decreases |names|
  {
    if |names| == 1 then Dict(map[names[0] := value])
    else Dict(map[names[0] := Nest(names[1..], value)])
  }

  // ---------------------------------------------------------------------
  // The loops of the source

  /** `_prop_exists`, walking an `inner` reference down the segments. */
  method PropExists(name: string, data: Value) returns (r: Res<bool>)
    ensures r == Exists(name, data)
    ensures data == Null ==> r == Success(false)
    ensures data.Dict? && !Contains(name, ".") ==> r == Success(name in data.m)
  {
    if data == Null {
      return Success(false);
    }
    if !Contains(name, ".") {
      r := In(name, data);
      return;
    }
    var names := Split(name, ".");
    var inner := data;
    var i := 0;
    while i < |names| - 1
      invariant 0 <= i <= |names| - 1
      invariant ExistsAt(names[i..], inner) == ExistsAt(names, data)
    {
      assert names[i..][1..] == names[i + 1..];
      var present :- In(names[i], inner);
      if !present {
        return Success(false);
      }
      inner :- Index(inner, names[i]);
      i := i + 1;
    }
    r := In(names[i], inner);
  }

  /** `_read_prop`, walking an `inner` reference down the segments. */
  method ReadProp(name: string, data: Value) returns (r: Res<Value>)
    ensures r == Read(name, data)
    ensures data.Dict? && !Contains(name, ".") ==>
      r == Success(if name in data.m then data.m[name] else Null)
  {
    if !Contains(name, ".") {
      var present :- In(name, data);
      r := if present then Index(data, name) else Success(Null);
      return;
    }
    var names := Split(name, ".");
    var inner := data;
    var i := 0;
    while i < |names| - 1
      invariant 0 <= i <= |names| - 1
      invariant ReadAt(names[i..], inner) == ReadAt(names, data)
    {
      assert names[i..][1..] == names[i + 1..];
      var present :- In(names[i], inner);
      if !present {
        return Success(Bool(false));
      }
      inner :- Index(inner, names[i]);
      i := i + 1;
    }
    var leaf := names[i];
    var present :- In(leaf, inner);
    r := if present then Index(inner, leaf) else Success(Null);
  }

  /** A failure deep in the write propagates unchanged to the top. */
  lemma {:induction false} WriteAtFailurePropagates(names: seq<string>, frames: seq<map<string, Value>>,
                                                    k: nat, i: nat, value: Value, name: string)
    requires k <= i < |names| && |frames| == i + 1
    requires forall m :: k <= m < i ==> ChildFor(frames[m], names[m], name) == Success(frames[m + 1])
    requires WriteAt(names[i..], frames[i], value, name).Failure?
    ensures WriteAt(names[k..], frames[k], value, name) == WriteAt(names[i..], frames[i], value, name)
    decreases i - k
  {
    if k < i {
      WriteAtFailurePropagates(names, frames, k + 1, i, value, name);
      assert names[k..][1..] == names[k + 1..];
    }
  }

  /** `_write_prop`: descend creating the missing dictionaries, then put
      the value at the last segment; the nested dictionaries are rebuilt
      from the bottom up, since the model's values are immutable. */
  method WriteProp(out: map<string, Value>, name: string, value: Value) returns (r: Res<map<string, Value>>)
    ensures r == Write(out, name, value)
    ensures !Contains(name, ".") ==> r == Success(out[name := value])
  {
    if !Contains(name, ".") {
      return Success(out[name := value]);
    }
    var names := Segments(name);
    var frames :- DescendForWrite(out, names, value, name);
    r := RebuildFromLeaf(names, frames, value, name);
  }

  /** The descent of `_write_prop`: the dictionary reached at each segment
      but the last, starting from `out`. */
  method DescendForWrite(out: map<string, Value>, names: seq<string>, value: Value, name: string)
    returns (r: Res<seq<map<string, Value>>>)
    requires |names| >= 1
    ensures r.Success? ==> |r.value| == |names| && r.value[0] == out
    ensures r.Success? ==>
      forall m :: 0 <= m < |names| - 1 ==> ChildFor(r.value[m], names[m], name) == Success(r.value[m + 1])
    ensures r.Failure? ==> WriteAt(names, out, value, name) == Failure(r.error)
  {
    var frames := [out];
    var i := 0;
    while i < |names| - 1
      invariant 0 <= i <= |names| - 1 && |frames| == i + 1 && frames[0] == out
      invariant forall m :: 0 <= m < i ==> ChildFor(frames[m], names[m], name) == Success(frames[m + 1])
    {
      var child := ChildFor(frames[i], names[i], name);
      if child.Failure? {
        assert names[i..][1..] == names[i + 1..];
        WriteAtFailurePropagates(names, frames, 0, i, value, name);
        assert names[0..] == names;
        return Failure(child.error);
      }
      frames := frames + [child.value];
      i := i + 1;
    }
    return Success(frames);
  }

  /** The rebuild of `_write_prop`: the value stored at the last segment,
      unless it is taken, and each dictionary on the way put back into its
      parent. */
  method RebuildFromLeaf(names: seq<string>, frames: seq<map<string, Value>>, value: Value, name: string)
    returns (r: Res<map<string, Value>>)
    requires |names| >= 1 && |frames| == |names|
    requires forall m :: 0 <= m < |names| - 1 ==> ChildFor(frames[m], names[m], name) == Success(frames[m + 1])
    ensures r == WriteAt(names, frames[0], value, name)
  {
    var j := |names| - 1;
    assert names[0..] == names;
    if names[j] in frames[j] {
      WriteAtFailurePropagates(names, frames, 0, j, value, name);
      return Failure(Raised(DuplicateMessage(name)));
    }
    var acc := frames[j][names[j] := value];
    while j > 0
      invariant 0 <= j <= |names| - 1
      invariant WriteAt(names[j..], frames[j], value, name) == Success(acc)
    {
      j := j - 1;
      assert names[j..][1..] == names[j + 1..];
      acc := frames[j][names[j] := Dict(acc)];
    }
    return Success(acc);
  }

  // ---------------------------------------------------------------------
  // Properties

  /** A missing segment, reached through dictionaries, ends both walks:
      false / `False` for an intermediate, false / `None` for the last one. */
  lemma {:induction false} MissingAt(names: seq<string>, inner: Value, j: nat, m: map<string, Value>)
    requires j < |names|
    requires Descend(names, inner, j) == Some(Dict(m)) && names[j] !in m
    ensures ExistsAt(names, inner) == Success(false)
    ensures ReadAt(names, inner) == Success(if j == |names| - 1 then Null else Bool(false))
    decreases j
  {
    if j > 0 {
      MissingAt(names[1..], inner.m[names[0]], j - 1, m);
    }
  }

  /** A path present through dictionaries exists and reads its value. */
  lemma {:induction false} PresentAt(names: seq<string>, inner: Value, v: Value)
    requires |names| >= 1
    requires Descend(names, inner, |names|) == Some(v)
    ensures ExistsAt(names, inner) == Success(true)
    ensures ReadAt(names, inner) == Success(v)
    decreases |names|
  {
    if |names| > 1 {
      PresentAt(names[1..], inner.m[names[0]], v);
    }
  }

  /** A name without a dot is a plain key lookup. */
  lemma Undotted(name: string, data: map<string, Value>)
    requires !Contains(name, ".")
    ensures Exists(name, Dict(data)) == Success(name in data)
    ensures Read(name, Dict(data)) == Success(if name in data then data[name] else Null)
  {
  }

  /** A missing intermediate segment: not there, and reading gives `False`. */
  lemma MissingIntermediate(name: string, data: Value, j: nat, m: map<string, Value>)
    requires j < |Segments(name)| - 1
    requires Descend(Segments(name), data, j) == Some(Dict(m)) && Segments(name)[j] !in m
    ensures Exists(name, data) == Success(false)
    ensures Read(name, data) == Success(Bool(false))
  {
    MissingAt(Segments(name), data, j, m);
  }

  /** Every intermediate present but the last segment missing: not there,
      and reading gives `None`. */
  lemma MissingLeaf(name: string, data: Value, m: map<string, Value>)
    requires Descend(Segments(name), data, |Segments(name)| - 1) == Some(Dict(m))
    requires Segments(name)[|Segments(name)| - 1] !in m
    ensures Exists(name, data) == Success(false)
    ensures Read(name, data) == Success(Null)
  {
    MissingAt(Segments(name), data, |Segments(name)| - 1, m);
  }

  /** A path present through dictionaries exists and reads its value. */
  lemma Present(name: string, data: Value, v: Value)
    requires Descend(Segments(name), data, |Segments(name)|) == Some(v)
    ensures Exists(name, data) == Success(true)
    ensures Read(name, data) == Success(v)
  {
    PresentAt(Segments(name), data, v);
  }

  lemma {:induction false} WriteAtThenRead(names: seq<string>, inner: map<string, Value>, value: Value,
                                           name: string, written: map<string, Value>)
    requires |names| >= 1 && WriteAt(names, inner, value, name) == Success(written)
    ensures Descend(names, Dict(written), |names|) == Some(value)
    decreases |names|
  {
    if |names| > 1 {
      var child := ChildFor(inner, names[0], name).value;
      var sub := WriteAt(names[1..], child, value, name).value;
      WriteAtThenRead(names[1..], child, value, name, sub);
    }
  }

  /** After a successful write the property exists and reads back the
      value written. */
  lemma WriteThenRead(out: map<string, Value>, name: string, value: Value, written: map<string, Value>)
    requires Write(out, name, value) == Success(written)
    ensures Exists(name, Dict(written)) == Success(true)
    ensures Read(name, Dict(written)) == Success(value)
  {
    if Contains(name, ".") {
      WriteAtThenRead(Segments(name), out, value, name, written);
    }
    Present(name, Dict(written), value);
  }

  /** A write touches only the first segment's key of `out`. */
  lemma WriteKeepsOtherKeys(out: map<string, Value>, name: string, value: Value, written: map<string, Value>)
    requires Write(out, name, value) == Success(written)
    ensures written.Keys == out.Keys + {Segments(name)[0]}
    ensures forall k :: k in out && k != Segments(name)[0] ==> written[k] == out[k]
  {
  }

  lemma {:induction false} WriteAtFresh(names: seq<string>, inner: map<string, Value>, value: Value, name: string)
    requires |names| >= 2 && names[0] !in inner
    ensures WriteAt(names, inner, value, name) == Success(inner[names[0] := Nest(names[1..], value)])
    decreases |names|
  {
    if |names| > 2 {
      WriteAtFresh(names[1..], map[], value, name);
    }
  }

  /** Writing a dotted name below a missing key creates the intermediate
      dictionaries, each holding only the next segment. */
  lemma WriteCreatesIntermediates(out: map<string, Value>, name: string, value: Value)
    requires Contains(name, ".") && Segments(name)[0] !in out
    ensures Write(out, name, value) == Success(out[Segments(name)[0] := Nest(Segments(name)[1..], value)])
  {
    WriteAtFresh(Segments(name), out, value, name);
  }

  lemma {:induction false} WriteAtConflict(names: seq<string>, inner: map<string, Value>, value: Value,
                                           name: string, j: nat, m: map<string, Value>)
    requires j < |names| - 1
    requires Descend(names, Dict(inner), j) == Some(Dict(m))
    requires names[j] in m && !m[names[j]].Dict?
    ensures WriteAt(names, inner, value, name) == Failure(Raised(ConflictMessage(name)))
    decreases j
  {
    if j == 0 {
      assert ChildFor(inner, names[0], name).Failure?;
    } else {
      var child := inner[names[0]].m;
      assert ChildFor(inner, names[0], name) == Success(child);
      WriteAtConflict(names[1..], child, value, name, j - 1, m);
    }
  }

  /** A dotted write through a segment that holds a non-dictionary raises. */
  lemma WriteConflict(out: map<string, Value>, name: string, value: Value, j: nat, m: map<string, Value>)
    requires Contains(name, ".") && j < |Segments(name)| - 1
    requires Descend(Segments(name), Dict(out), j) == Some(Dict(m))
    requires Segments(name)[j] in m && !m[Segments(name)[j]].Dict?
    ensures Write(out, name, value) == Failure(Raised(ConflictMessage(name)))
  {
    WriteAtConflict(Segments(name), out, value, name, j, m);
  }

  lemma {:induction false} WriteAtDuplicate(names: seq<string>, inner: map<string, Value>, value: Value, name: string)
    requires |names| >= 1 && Descend(names, Dict(inner), |names|).Some?
    ensures WriteAt(names, inner, value, name) == Failure(Raised(DuplicateMessage(name)))
    decreases |names|
  {
    if |names| > 1 {
      var next := inner[names[0]];
      WriteAtDuplicate(names[1..], next.m, value, name);
    }
  }

  /** A dotted write onto a path that is already there raises; a name
      without a dot is silently overwritten instead. */
  lemma WriteDuplicate(out: map<string, Value>, name: string, value: Value)
    requires Descend(Segments(name), Dict(out), |Segments(name)|).Some?
    ensures Contains(name, ".") ==> Write(out, name, value) == Failure(Raised(DuplicateMessage(name)))
    ensures !Contains(name, ".") ==> Write(out, name, value) == Success(out[name := value])
  {
    if Contains(name, ".") {
      WriteAtDuplicate(Segments(name), out, value, name);
    }
  }
}
