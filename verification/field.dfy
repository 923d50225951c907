/** `Field`: one column of the editable table.  It resolves the value read
    for a row (`get`) and the value written from a submission (`set`),
    decides whether it takes part in an action, and chains its validators. */
module Fields {
  import opened Wrappers
  import opened PyStrings
  import opened PyValues
  import opened NestedData
  import opened Formatters
  import opened Validators
  import opened ValidationSettings

  /** `SetType`: when a field is written to the database. */
  datatype SetType = SetNone | SetBoth | SetCreate | SetEdit

  /** The argument of `Field.set`: a boolean or a `SetType`. */
  datatype SetFlag = Flag(b: bool) | Type(t: SetType)

  /** A static get or set value: a plain value, or a callable that is
      called each time the value is needed. */
  datatype Static = Const(v: Value) | Thunk(f: () -> Value)

  function Resolve(st: Static): Value {
    match st
    case Const(v) => v
    case Thunk(f) => f()
  }

  /** One registered validator and whether it sees the set-formatted value. */
  datatype ValidatorEntry = ValidatorEntry(setFormatted: bool, validator: Validator)

  /** The options objects a list of validators reads. */
  function EntriesFootprint(entries: seq<ValidatorEntry>): set<ValidationOptions> {
    set k | 0 <= k < |entries| && entries[k].validator.BuiltIn? :: entries[k].validator.opts
  }

  /** `__format`: no formatter leaves the value as it is. */
  function Format(val: Value, data: Value, formatter: Option<Formatter>): (r: Res<Value>)
    ensures formatter.None? ==> r == Success(val)
  {
    match formatter
    case None => Success(val)
    case Some(f) => f(val, data)
  }

  /** The value one validator is given: the raw or the set-formatted one. */
  function TestValue(e: ValidatorEntry, raw: Value, formatted: Res<Value>): Res<Value> {
    if e.setFormatted then formatted else Success(raw)
  }

  /** Whether one validator accepts: its result `== True`. */
  predicate Passes(e: ValidatorEntry, raw: Value, formatted: Res<Value>, data: Value, host: Host)
    reads Footprint(e.validator)
  {
    var test := TestValue(e, raw, formatted);
    test.Success? && var res := Check(e.validator, test.value, data, host);
    res.Success? && Eq(res.value, Bool(true))
  }

  /** Whether one validator answers `res`. */
  predicate Answers(e: ValidatorEntry, raw: Value, formatted: Res<Value>, data: Value, host: Host, res: Value)
    reads Footprint(e.validator)
  {
    var test := TestValue(e, raw, formatted);
    test.Success? && Check(e.validator, test.value, data, host) == Success(res)
  }

  /** The validator loop of `_validate`: each validator in turn, on the raw
      value or on the set-formatted one, stopping at the first result that
      is not `True`. */
  function Chain(entries: seq<ValidatorEntry>, raw: Value, formatted: Res<Value>, data: Value, host: Host): Res<Value>
    reads EntriesFootprint(entries)
    decreases |entries|
  {
    if |entries| == 0 then Success(Bool(true))
    else
      assert Footprint(entries[0].validator) <= EntriesFootprint(entries);
      assert EntriesFootprint(entries[1..]) <= EntriesFootprint(entries) by {
        forall o | o in EntriesFootprint(entries[1..]) ensures o in EntriesFootprint(entries) {
          var k :| 0 <= k < |entries[1..]| && entries[1..][k].validator.BuiltIn? && entries[1..][k].validator.opts == o;
          assert entries[k + 1] == entries[1..][k];
        }
      }
      var test :- TestValue(entries[0], raw, formatted);
      var res :- Check(entries[0].validator, test, data, host);
      if !Eq(res, Bool(true)) then Success(res) else Chain(entries[1..], raw, formatted, data, host)
  }

  class Field {
    var dbField: string
    var name: string
    var validators: seq<ValidatorEntry>
    var setFormatter: Option<Formatter>
    var getFormatter: Option<Formatter>
    var setValue: Option<Static>
    var getValue: Option<Static>
    var http: bool
    var get: bool
    var setType: SetType

    /** `Field(db_field, name)`. */
    constructor (dbField: string, name: Option<string>)
      ensures this.dbField == dbField
      ensures this.name == if name.None? then dbField else name.value
      ensures validators == [] && setFormatter.None? && getFormatter.None?
      ensures setValue.None? && getValue.None?
      ensures http && get && setType == SetBoth
    {
      this.dbField := dbField;
      this.name := if name.None? then dbField else name.value;
      validators := [];
      setFormatter := None;
      getFormatter := None;
      setValue := None;
      getValue := None;
      http := true;
      get := true;
      setType := SetBoth;
    }

    /** `set(flag)`: `True` means both actions, `False` neither. */
    method Set(flag: SetFlag)
      modifies this`setType
      ensures flag == Flag(true) ==> setType == SetBoth
      ensures flag == Flag(false) ==> setType == SetNone
      ensures flag.Type? ==> setType == flag.t
    {
      match flag
      case Flag(b) => setType := if b then SetBoth else SetNone;
      case Type(t) => setType := t;
    }

    /** `validator(val, set_formatted)`: appended after the ones already there. */
    method AddValidator(v: Validator, setFormatted: bool)
      modifies this`validators
      ensures validators == old(validators) + [ValidatorEntry(setFormatted, v)]
    {
      validators := validators + [ValidatorEntry(setFormatted, v)];
    }

    /** `val(direction, data)`.  For `get`: the static get value, else the
        flat lookup of the database column; for anything else: the static
        set value, else the nested read of the field's name.  The matching
        formatter is applied afterwards. */
    function Val(direction: string, data: Value): Res<Value>
      reads this
    {
      if direction == "get" then
        var v :- if getValue.Some? then Success(Resolve(getValue.value))
                 else (var present :- In(dbField, data);
                       if present then Index(data, dbField) else Success(Null));
        Format(v, data, getFormatter)
      else
        var v :- if setValue.Some? then Success(Resolve(setValue.value)) else Read(name, data);
        Format(v, data, setFormatter)
    }

    /** `_apply(action, data)`: whether the field takes part in `action`. */
    function Apply(action: string, data: Value): Res<bool>
      reads this
    {
      if action == "get" then Success(get)
      else if action == "create" && (setType == SetNone || setType == SetEdit) then Success(false)
      else if action == "edit" && (setType == SetNone || setType == SetCreate) then Success(false)
      else if setValue.None? then Exists(name, data)
      else Success(true)
    }

    /** `_write(out, src_data)`: the get value stored at the field's name. */
    function WriteInto(out: map<string, Value>, srcData: Value): (r: Res<map<string, Value>>)
      reads this
      ensures Val("get", srcData).Failure? ==> r.Failure?
      ensures r.Success? ==> Read(name, Dict(r.value)) == Val("get", srcData)
      ensures r.Success? && !Contains(name, ".") ==> r.value == out[name := Val("get", srcData).value]
    {
      match Val("get", srcData)
      case Failure(e) => Failure(e)
      case Success(v) =>
        var written := Write(out, name, v);
        if written.Success? then
          WriteThenRead(out, name, v, written.value);
          written
        else written
    }

    function ValidatorsFootprint(): set<ValidationOptions>
      reads this
    {
      EntriesFootprint(validators)
    }

    /** What `_validate` returns. */
    function ValidateSpec(data: Value, id: Value, action: string): Res<Value>
      reads this, ValidatorsFootprint()
    {
      if |validators| == 0 then Success(Bool(true))
      else
        var raw :- Read(name, data);
        Chain(validators, raw, Val("set", data), data, Host(action, id, name))
    }

    /** `_validate(data, editor, id, action)`: the validators in order, with
        an early return at the first result that is not `True`. */
    method Validate(data: Value, id: Value, action: string) returns (r: Res<Value>)
      ensures r == ValidateSpec(data, id, action)
      ensures |validators| == 0 ==> r == Success(Bool(true))
    {
      if |validators| == 0 {
        return Success(Bool(true));
      }
      var raw :- ReadProp(name, data);
      r := RunChain(validators, raw, Val("set", data), data, Host(action, id, name));
    }
  }

  /** The validator loop of `_validate`: each validator in turn, stopping at
      the first result that is not `True`. */
  method RunChain(entries: seq<ValidatorEntry>, raw: Value, formatted: Res<Value>, data: Value, host: Host)
    returns (r: Res<Value>)
    ensures r == Chain(entries, raw, formatted, data, host)
  {
    var rest := entries;
    while |rest| > 0
      invariant Chain(rest, raw, formatted, data, host) == Chain(entries, raw, formatted, data, host)
    {
      var entry := rest[0];
      var test: Value;
      if entry.setFormatted {
        test :- formatted;
      } else {
        test := raw;
      }
      var res :- Check(entry.validator, test, data, host);
      if !Eq(res, Bool(true)) {
        return Success(res);
      }
      rest := rest[1..];
    }
    return Success(Bool(true));
  }

  // ---------------------------------------------------------------------
  // Properties

  /** The chain's answer, when it is not `True`, is the result of the first
      validator that did not pass; every validator before it passed. */
  lemma {:induction false} ChainFirstFailure(entries: seq<ValidatorEntry>, raw: Value, formatted: Res<Value>,
                                             data: Value, host: Host, res: Value)
    requires Chain(entries, raw, formatted, data, host) == Success(res) && !Eq(res, Bool(true))
    ensures exists i :: (0 <= i < |entries|
                         && (forall k :: 0 <= k < i ==> Passes(entries[k], raw, formatted, data, host))
                         && Answers(entries[i], raw, formatted, data, host, res))
    decreases |entries|
  {
    assert |entries| > 0 by {
      if |entries| == 0 {
        EqReflexive(Bool(true));
      }
    }
    ChainHead(entries, raw, formatted, data, host, res);
    if !Answers(entries[0], raw, formatted, data, host, res) {
      ChainFirstFailure(entries[1..], raw, formatted, data, host, res);
      var i :| (0 <= i < |entries[1..]|
                && (forall k :: 0 <= k < i ==> Passes(entries[1..][k], raw, formatted, data, host))
                && Answers(entries[1..][i], raw, formatted, data, host, res));
      forall k | 0 <= k < i + 1 ensures Passes(entries[k], raw, formatted, data, host) {
        if k > 0 {
          assert entries[k] == entries[1..][k - 1];
        }
      }
      assert entries[i + 1] == entries[1..][i];
    }
  }

  /** One step of the chain that ends in a failure: the first validator
      gives the answer, or it passes and the rest of the chain does. */
  lemma ChainHead(entries: seq<ValidatorEntry>, raw: Value, formatted: Res<Value>, data: Value, host: Host, res: Value)
    requires |entries| > 0
    requires Chain(entries, raw, formatted, data, host) == Success(res) && !Eq(res, Bool(true))
    ensures Answers(entries[0], raw, formatted, data, host, res)
            || (Passes(entries[0], raw, formatted, data, host) && Chain(entries[1..], raw, formatted, data, host) == Success(res))
  {
  }

  /** Once a validator fails, the ones after it are never run: the answer is
      the same whatever follows. */
  lemma {:induction false} ChainSkipsRest(entries: seq<ValidatorEntry>, rest: seq<ValidatorEntry>, raw: Value,
                                          formatted: Res<Value>, data: Value, host: Host, res: Value)
    requires Chain(entries, raw, formatted, data, host) == Success(res) && !Eq(res, Bool(true))
    ensures Chain(entries + rest, raw, formatted, data, host) == Success(res)
    decreases |entries|
  {
    var e, tail := entries[0], entries[1..];
    assert entries == [e] + tail;
    assert entries + rest == [e] + (tail + rest);
    ChainCons(e, tail, raw, formatted, data, host);
    ChainCons(e, tail + rest, raw, formatted, data, host);
    var t := TestValue(e, raw, formatted);
    if t.Success? && Check(e.validator, t.value, data, host).Success?
       && Eq(Check(e.validator, t.value, data, host).value, Bool(true)) {
      ChainSkipsRest(tail, rest, raw, formatted, data, host, res);
    }
  }

  /** The chain over a first validator and the ones after it. */
  lemma ChainCons(e: ValidatorEntry, tail: seq<ValidatorEntry>, raw: Value, formatted: Res<Value>, data: Value, host: Host)
    ensures Chain([e] + tail, raw, formatted, data, host)
      == (var t :- TestValue(e, raw, formatted);
          var r :- Check(e.validator, t, data, host);
          if !Eq(r, Bool(true)) then Success(r) else Chain(tail, raw, formatted, data, host))
  {
    assert ([e] + tail)[0] == e && ([e] + tail)[1..] == tail;
  }

  /** When every validator passes, the chain answers `True`. */
  lemma {:induction false} ChainAllPass(entries: seq<ValidatorEntry>, raw: Value, formatted: Res<Value>,
                                        data: Value, host: Host)
    requires forall k :: 0 <= k < |entries| ==> Passes(entries[k], raw, formatted, data, host)
    ensures Chain(entries, raw, formatted, data, host) == Success(Bool(true))
    decreases |entries|
  {
    if |entries| > 0 {
      assert Passes(entries[0], raw, formatted, data, host);
      assert forall k :: 0 <= k < |entries[1..]| ==> entries[1..][k] == entries[k + 1];
      ChainAllPass(entries[1..], raw, formatted, data, host);
    }
  }

  /** `val('get')` prefers the static get value; without one it looks the
      database column up in the flat row (a dotted column is not a path). */
  lemma ValGetSources(f: Field, data: map<string, Value>)
    ensures f.getValue.Some? ==> f.Val("get", Dict(data)) == Format(Resolve(f.getValue.value), Dict(data), f.getFormatter)
    ensures f.getValue.None? ==>
      f.Val("get", Dict(data)) == Format(if f.dbField in data then data[f.dbField] else Null, Dict(data), f.getFormatter)
  {
  }

  /** `val('set')` prefers the static set value; without one it reads the
      field's name as a nested path of the submitted row. */
  lemma ValSetSources(f: Field, direction: string, data: Value, v: Value)
    requires direction != "get"
    ensures f.setValue.Some? ==> f.Val(direction, data) == Format(Resolve(f.setValue.value), data, f.setFormatter)
    ensures f.setValue.None? && Descend(Segments(f.name), data, |Segments(f.name)|) == Some(v) ==>
      f.Val(direction, data) == Format(v, data, f.setFormatter)
  {
    if f.setValue.None? && Descend(Segments(f.name), data, |Segments(f.name)|) == Some(v) {
      Present(f.name, data, v);
    }
  }

  /** `_apply('get')` is the get flag; `create` and `edit` are refused by
      the set types that exclude them. */
  lemma ApplyBySetType(f: Field, data: Value)
    ensures f.Apply("get", data) == Success(f.get)
    ensures f.setType == SetNone || f.setType == SetEdit ==> f.Apply("create", data) == Success(false)
    ensures f.setType == SetNone || f.setType == SetCreate ==> f.Apply("edit", data) == Success(false)
  {
  }

  /** Past the set-type check, a field with no static set value takes part
      exactly when its name was submitted. */
  lemma ApplyWhenSubmitted(f: Field, action: string, data: map<string, Value>)
    requires action != "get"
    requires action == "create" ==> f.setType == SetBoth || f.setType == SetCreate
    requires action == "edit" ==> f.setType == SetBoth || f.setType == SetEdit
    requires !Contains(f.name, ".")
    ensures f.Apply(action, Dict(data)) == Success(f.setValue.Some? || f.name in data)
  {
    Undotted(f.name, data);
  }
}
