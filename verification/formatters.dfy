/** The string formatters of the `Formatter` class: each factory returns a
    function of `(value, row data)` for a field's get or set formatter. */
module Formatters {
  import opened Wrappers
  import opened PyStrings
  import opened PyValues

  /** A get or set formatter: `(value, row data)` to a new value. */
  type Formatter = (Value, Value) -> Res<Value>

  function AsStrings(parts: seq<string>): (r: seq<Value>)
    ensures |r| == |parts| && forall k :: 0 <= k < |r| ==> r[k] == Str(parts[k])
  {
    if |parts| == 0 then [] else [Str(parts[0])] + AsStrings(parts[1..])
  }

  /** The strings of a list whose elements are all strings. */
  function StringsOf(items: seq<Value>): (r: Option<seq<string>>)
    ensures r.Some? <==> forall k :: 0 <= k < |items| ==> items[k].Str?
    ensures r.Some? ==> |r.value| == |items| && forall k :: 0 <= k < |items| ==> items[k] == Str(r.value[k])
  {
    if |items| == 0 then Some([])
    else if !items[0].Str? then None
    else match StringsOf(items[1..])
      case None => None
      case Some(rest) => Some([items[0].s] + rest)
  }

  /** The characters of a string, each as a one-character string. */
  function Chars(s: string): (r: seq<string>)
    ensures |r| == |s| && forall k :: 0 <= k < |s| ==> r[k] == [s[k]]
  {
    if |s| == 0 then [] else [[s[0]]] + Chars(s[1..])
  }

  /** `explode(delimiter)`: `str(val).split(delimiter)`; an empty delimiter
      raises `ValueError`. */
  function Explode(delimiter: string, val: Value): (r: Res<Value>)
    ensures r.Failure? <==> |delimiter| == 0
    ensures r.Success? ==> r.value.List? && |r.value.items| >= 1
    ensures r.Success? ==> forall k :: 0 <= k < |r.value.items| ==>
      r.value.items[k].Str? && !Contains(r.value.items[k].s, delimiter)
  {
    if |delimiter| == 0 then Failure(ValueError)
    else Success(List(AsStrings(Split(ToStr(val), delimiter))))
  }

  /** `implode(delimiter)`: `delimiter.join(val)`.  A string is joined
      character by character, a dictionary key by key; a list must hold
      strings only. */
  function Implode(delimiter: string, val: Value): (r: Res<Value>)
    ensures val.List? ==> (r.Success? <==> forall k :: 0 <= k < |val.items| ==> val.items[k].Str?)
    ensures val.Dict? ==> r.Success?
    ensures val.Dict? && |val.m| == 0 ==> r == Success(Str(""))
    ensures val.Dict? && |val.m| == 1 ==> r.value.Str? && r.value.s in val.m
    ensures val.Null? || val.Bool? || val.Int? ==> r.Failure?
  {
    match val
    case Str(s) => Success(Str(Join(delimiter, Chars(s))))
    case List(items) =>
      (match StringsOf(items)
       case Some(parts) => Success(Str(Join(delimiter, parts)))
       case None => Failure(TypeError))
    case Dict(m) => Success(Str(Join(delimiter, KeyOrder(m.Keys))))
    case _ => Failure(TypeError)
  }

  /** `if_empty(empty_value)`. */
  function IfEmpty(emptyValue: Value, val: Value): (r: Res<Value>)
    ensures r.Success?
    ensures val == Str("") ==> r.value == emptyValue
    ensures val != Str("") ==> r.value == val
  {
    Success(if Eq(val, Str("")) then emptyValue else val)
  }

  /** `from_decimal_char(char)`: `str(val).replace(char, '.')`. */
  function FromDecimalChar(decimalChar: string, val: Value): Res<Value> {
    Success(Str(Replace(ToStr(val), decimalChar, ".")))
  }

  /** `to_decimal_char(char)`: `str(val).replace('.', char)`. */
  function ToDecimalChar(decimalChar: string, val: Value): Res<Value> {
    Success(Str(Replace(ToStr(val), ".", decimalChar)))
  }

  // The factories: each configures one of the functions above.

  function ExplodeFormatter(delimiter: string): Formatter {
    (val, data) => Explode(delimiter, val)
  }

  function ImplodeFormatter(delimiter: string): Formatter {
    (val, data) => Implode(delimiter, val)
  }

  function IfEmptyFormatter(emptyValue: Value): Formatter {
    (val, data) => IfEmpty(emptyValue, val)
  }

  function FromDecimalCharFormatter(decimalChar: string): Formatter {
    (val, data) => FromDecimalChar(decimalChar, val)
  }

  function ToDecimalCharFormatter(decimalChar: string): Formatter {
    (val, data) => ToDecimalChar(decimalChar, val)
  }

  // ---------------------------------------------------------------------
  // Properties

  lemma StringsOfAsStrings(parts: seq<string>)
    ensures StringsOf(AsStrings(parts)) == Some(parts)
  {
    var items := AsStrings(parts);
    assert forall k :: 0 <= k < |items| ==> items[k] == Str(parts[k]);
    var r := StringsOf(items);
    var strs := r.value;
    forall k | 0 <= k < |parts| ensures strs[k] == parts[k] {
      assert items[k] == Str(strs[k]);
    }
    assert strs == parts;
  }

  /** Imploding what was exploded gives back the string. */
  lemma ImplodeExplode(delimiter: string, s: string)
    requires |delimiter| > 0
    ensures Explode(delimiter, Str(s)).Success?
    ensures Implode(delimiter, Explode(delimiter, Str(s)).value) == Success(Str(s))
  {
    StringsOfAsStrings(Split(s, delimiter));
    JoinSplit(s, delimiter);
  }

  /** Exploding what was imploded gives back the list, provided no element
      lets the delimiter start before its end (for instance when no element
      holds the delimiter's first character). */
  lemma ExplodeImplode(delimiter: string, parts: seq<string>)
    requires |delimiter| > 0 && |parts| >= 1
    requires forall k :: 0 <= k < |parts| ==> NoEarlySep(parts[k], delimiter)
    ensures Implode(delimiter, List(AsStrings(parts))) == Success(Str(Join(delimiter, parts)))
    ensures Explode(delimiter, Str(Join(delimiter, parts))) == Success(List(AsStrings(parts)))
  {
    StringsOfAsStrings(parts);
    SplitJoin(parts, delimiter);
  }

  /** A dictionary is joined as the list of its keys would be. */
  lemma ImplodeDictKeys(delimiter: string, m: map<string, Value>)
    ensures Implode(delimiter, Dict(m)) == Implode(delimiter, List(AsStrings(KeyOrder(m.Keys))))
  {
    StringsOfAsStrings(KeyOrder(m.Keys));
  }

  /** `'|'.join({'a': 1})` is `'a'`. */
  lemma ImplodeDictExample()
    ensures Implode("|", Dict(map["a" := Int(1)])) == Success(Str("a"))
  {
    KeyOrderSingle("a");
  }

  /** A row submitted as `tags[]=x` becomes `{'': 'x'}`, which joins to the
      empty string. */
  lemma ImplodeEmptyKeyExample(delimiter: string)
    ensures Implode(delimiter, Dict(map["" := Str("x")])) == Success(Str(""))
  {
    KeyOrderSingle("");
  }

  /** Exploding a dictionary splits its `repr`. */
  lemma ExplodeDictExample()
    ensures Explode(",", Dict(map["a" := Int(1)])) == Success(List([Str("{'a': 1}")]))
  {
    ReprDictExample();
    var text := "{'a': 1}";
    ContainsChar(text, ',');
    assert Find(text, ",").None? by {
      if Find(text, ",").Some? {
        assert Contains(text, ",");
      }
    }
    assert Split(text, ",") == [text];
    assert AsStrings([text]) == [Str(text)];
  }

  lemma {:induction false} JoinWithout(sep: string, parts: seq<string>, c: char)
    requires c !in sep && forall k :: 0 <= k < |parts| ==> c !in parts[k]
    ensures c !in Join(sep, parts)
    decreases |parts|
  {
    if |parts| > 1 {
      JoinWithout(sep, parts[1..], c);
    }
  }

  lemma SplitPartsWithout(s: string, c: char)
    ensures forall k :: 0 <= k < |Split(s, [c])| ==> c !in Split(s, [c])[k]
  {
    var parts := Split(s, [c]);
    forall k | 0 <= k < |parts| ensures c !in parts[k] {
      ContainsChar(parts[k], c);
    }
  }

  /** With a one-character `decimalChar`, every occurrence becomes `.`, and when
      `decimalChar` is not `.` none is left. */
  lemma FromDecimalCharReplacesAll(c: char, val: Value)
    ensures FromDecimalChar([c], val) == Success(Str(SubstChar(ToStr(val), c, '.')))
    ensures c != '.' ==> c !in FromDecimalChar([c], val).value.s
  {
    ReplaceOneChar(ToStr(val), c, '.');
    if c != '.' {
      SplitPartsWithout(ToStr(val), c);
      JoinWithout(".", Split(ToStr(val), [c]), c);
    }
  }

  /** Every `.` becomes `decimalChar`; when `decimalChar` holds no `.` (a single other
      character, or none at all) no `.` is left. */
  lemma ToDecimalCharReplacesAll(decimalChar: string, val: Value)
    ensures |decimalChar| == 1 ==> ToDecimalChar(decimalChar, val) == Success(Str(SubstChar(ToStr(val), '.', decimalChar[0])))
    ensures '.' !in decimalChar ==> '.' !in ToDecimalChar(decimalChar, val).value.s
  {
    if |decimalChar| == 1 {
      assert decimalChar == [decimalChar[0]];
      ReplaceOneChar(ToStr(val), '.', decimalChar[0]);
    }
    if '.' !in decimalChar {
      SplitPartsWithout(ToStr(val), '.');
      JoinWithout(decimalChar, Split(ToStr(val), "."), '.');
    }
  }
}
