/** The Python values that travel through the request engine (JSON-shaped
    request data, static field values, validator results), together with the
    Python operators the engine applies to them: `==`, `in`, `[]`, `str()`
    and truth testing.  Exceptions become `Failure(Error)`. */
module PyValues {
  import opened Wrappers
  import opened PyStrings

  datatype Value =
    | Null
    | Bool(b: bool)
    | Int(i: int)
    | Str(s: string)
    | List(items: seq<Value>)
    | Dict(m: map<string, Value>)

  /** The exceptions the core raises or lets escape. */
  datatype Error =
    | TypeError
    | KeyError(key: string)
    | RuntimeError
    | ValueError
    | IndexError
    | AttributeError
    | Raised(msg: string)

  type Res<T> = Result<T, Error>

  /** The integer a `bool` or `int` stands for in comparisons (`True == 1`). */
  function NumOf(v: Value): Option<int> {
    match v
    case Bool(b) => Some(if b then 1 else 0)
    case Int(i) => Some(i)
    case _ => None
  }

  /** Python's `a == b`. */
  predicate Eq(a: Value, b: Value)
    decreases a
  {
    match (a, b)
    case (Null, Null) => true
    case (Str(x), Str(y)) => x == y
    case (List(xs), List(ys)) =>
      |xs| == |ys| && forall k :: 0 <= k < |xs| ==> Eq(xs[k], ys[k])
    case (Dict(m), Dict(n)) =>
      m.Keys == n.Keys && forall k :: k in m ==> Eq(m[k], n[k])
    case _ => NumOf(a).Some? && NumOf(a) == NumOf(b)
  }

  /** `v in xs` for a list: membership by `==`. */
  predicate Member(v: Value, xs: seq<Value>) {
    exists k :: 0 <= k < |xs| && Eq(v, xs[k])
  }

  /** `key in container` for a string key: a dict tests its keys, a string
      its substrings, a list its elements; anything else raises. */
  function In(key: string, container: Value): (r: Res<bool>)
    ensures container.Dict? ==> r == Success(key in container.m)
    ensures container.Null? || container.Int? || container.Bool? ==> r.Failure?
  {
    match container
    case Dict(m) => Success(key in m)
    case Str(s) => Success(Contains(s, key))
    case List(xs) => Success(Member(Str(key), xs))
    case _ => Failure(TypeError)
  }

  /** `container[key]` for a string key: only a dict can be indexed by a string. */
  function Index(container: Value, key: string): (r: Res<Value>)
    ensures r.Success? <==> container.Dict? && key in container.m
    ensures r.Success? ==> r.value == container.m[key]
  {
    match container
    case Dict(m) => if key in m then Success(m[key]) else Failure(KeyError(key))
    case _ => Failure(TypeError)
  }

  /** Python's truth test. */
  predicate Truthy(v: Value) {
    match v
    case Null => false
    case Bool(b) => b
    case Int(i) => i != 0
    case Str(s) => |s| > 0
    case List(xs) => |xs| > 0
    case Dict(m) => |m| > 0
  }

  /** `str(v)`: a string is its own text, anything else is shown as `repr`
      shows it. */
  function ToStr(v: Value): string {
    match v
    case Str(s) => s
    case _ => Repr(v)
  }

  /** `repr(v)`.  Strings are quoted as `repr` quotes them; a dictionary
      lists its keys in the order `KeyOrder` gives them. */
  function Repr(v: Value): string
    decreases v, 1
  {
    match v
    case Null => "None"
    case Bool(b) => if b then "True" else "False"
    case Int(i) => IntToStr(i)
    case Str(s) => StrRepr(s)
    case List(xs) => "[" + ReprItems(xs, v) + "]"
    case Dict(m) => "{" + ReprEntries(KeyOrder(m.Keys), m, v) + "}"
  }

  function ReprItems(xs: seq<Value>, whole: Value): string
    requires forall k :: 0 <= k < |xs| ==> xs[k] < whole
    decreases whole, 0, |xs|
  {
    if |xs| == 0 then ""
    else if |xs| == 1 then Repr(xs[0])
    else Repr(xs[0]) + ", " + ReprItems(xs[1..], whole)
  }

  function ReprEntries(keys: seq<string>, m: map<string, Value>, whole: Value): string
    requires forall k :: 0 <= k < |keys| ==> keys[k] in m
    requires forall k :: k in m ==> m[k] < whole
    decreases whole, 0, |keys|
  {
    if |keys| == 0 then ""
    else
      var entry := StrRepr(keys[0]) + ": " + Repr(m[keys[0]]);
      if |keys| == 1 then entry else entry + ", " + ReprEntries(keys[1..], m, whole)
  }

  /** A dictionary with one key shows that key's `repr`, a colon and its
      value's `repr` between braces. */
  lemma ReprOneEntry(key: string, v: Value)
    ensures ToStr(Dict(map[key := v])) == "{" + StrRepr(key) + ": " + Repr(v) + "}"
  {
    var m := map[key := v];
    var d := Dict(m);
    assert m.Keys == {key};
    KeyOrderSingle(key);
    assert ToStr(d) == "{" + ReprEntries([key], m, d) + "}";
    assert ReprEntries([key], m, d) == StrRepr(key) + ": " + Repr(v);
  }

  /** `str({'a': 1})` is `{'a': 1}`. */
  lemma ReprDictExample()
    ensures ToStr(Dict(map["a" := Int(1)])) == "{'a': 1}"
  {
    ReprOneEntry("a", Int(1));
    StrReprPlain("a");
    assert IntToStr(1) == "1";
  }

  /** `str(["it's"])` shows the string between double quotes. */
  lemma ReprListExample()
    ensures ToStr(List([Str("it's")])) == "[\"it's\"]"
  {
    StrReprDoubleQuoted("it's");
  }

  /** Python's `==` is reflexive on these values. */
  lemma {:induction false} EqReflexive(v: Value)
    ensures Eq(v, v)
    decreases v
  {
    match v
    case List(xs) =>
      forall k | 0 <= k < |xs| ensures Eq(xs[k], xs[k]) {
        EqReflexive(xs[k]);
      }
    case Dict(m) =>
      forall k | k in m ensures Eq(m[k], m[k]) {
        EqReflexive(m[k]);
      }
    case _ =>
  }
}
