/** The built-in validators of the `Validate` class.  A validator maps
    `(value, row data, host)` to `True` or to an error message; the common
    `empty` / `optional` checks run first and may decide on their own. */
module Validators {
  import opened Wrappers
  import opened PyStrings
  import opened PyValues
  import opened ValidationSettings

  /** `ValidationHost`: what a validator is told about the row being
      checked.  The field and editor objects are represented by the field's
      name. */
  datatype Host = Host(action: string, id: Value, fieldName: string)

  /** The configured checks of the built-in factories.  `required` and
      `not_empty` run the `Basic` check on options they have changed;
      `MaxLen` keeps the source's parameter, named `min`. */
  datatype Kind =
    | Basic
    | Boolean
    | Numeric(decimal: string)
    | MinLen(min: int)
    | MaxLen(min: int)
    | MinMaxLen(min: int, max: int)
    | Ip
    | Values(allowed: seq<Value>)
    | NoTags

  /** A validator attached to a field: a built-in one reads its (shared,
      mutable) options object when it runs; a custom one is any function. */
  datatype Validator =
    | BuiltIn(kind: Kind, opts: ValidationOptions)
    | Custom(f: (Value, Value, Host) -> Res<Value>)

  /** `Validate.__common`: `Some(false)` rejects, `Some(true)` accepts,
      `None` defers to the specific check. */
  function Common(val: Value, s: Settings): Option<bool> {
    if !s.optional && Eq(val, Null) then Some(false)
    else if !s.empty && !Eq(val, Null) && Eq(val, Str("")) then Some(false)
    else if s.optional && Eq(val, Null) then Some(true)
    else if s.empty && Eq(val, Str("")) then Some(true)
    else None
  }

  /** `True`, or the configured message. */
  function Verdict(ok: bool, s: Settings): Value {
    if ok then Bool(true) else Str(s.message)
  }

  /** `len(val)`. */
  function Len(val: Value): Res<int> {
    match val
    case Str(t) => Success(|t|)
    case List(xs) => Success(|xs|)
    case Dict(m) => Success(|m|)
    case _ => Failure(TypeError)
  }

  const TrueTokens: seq<Value> :=
    [Bool(true), Int(1), Str("1"), Str("true"), Str("t"), Str("on"), Str("yes"), Str("\U{2713}")]
  const FalseTokens: seq<Value> :=
    [Bool(false), Int(0), Str("0"), Str("false"), Str("f"), Str("off"), Str("no"), Str("x")]

  /** One dotted-quad part: digits whose value is at most 255. */
  predicate IsOctet(part: string) {
    IsDigits(part) && DigitsValue(part) <= 255
  }

  predicate AllOctets(parts: seq<string>) {
    forall k :: 0 <= k < |parts| ==> IsOctet(parts[k])
  }

  /** What `re.search(r'<.*>', s)` finds: a `<` and a later `>` with no
      line break between them. */
  predicate HasTag(s: string) {
    exists i, j :: 0 <= i < j < |s| && s[i] == '<' && s[j] == '>'
      && forall k :: i < k < j ==> s[k] != '\n'
  }

  /** The check a built-in validator performs once `Common` has deferred. */
  function Specific(kind: Kind, s: Settings, val: Value): Res<Value> {
    match kind
    case Basic => Success(Bool(true))
    case Boolean =>
      var b := if val.Str? then Str(Lower(val.s)) else val;
      Success(Verdict(Member(b, TrueTokens) || Member(b, FalseTokens), s))
    case Numeric(decimal) =>
      if val.Int? then Success(Bool(true))
      else
        var num := Strip(Replace(ToStr(val), decimal, ""));
        Success(Verdict(num != "" && IsDigits(num), s))
    case MinLen(min) =>
      var n :- Len(val);
      Success(Verdict(!(n < min), s))
    case MaxLen(_) =>
      // the comparison is against the builtin `max`, which raises
      Failure(TypeError)
    case MinMaxLen(min, max) =>
      var n :- Len(val);
      Success(Verdict(!(n < min || n > max), s))
    case Ip =>
      if !val.Str? then Failure(AttributeError)
      else
        var parts := Split(val.s, ".");
        Success(Verdict(|parts| == 4 && AllOctets(parts), s))
    case Values(allowed) => Success(Verdict(Member(val, allowed), s))
    case NoTags =>
      if !val.Str? then Failure(TypeError)
      else Success(Verdict(!HasTag(val.s), s))
  }

  /** A built-in validator run with the settings its options hold now. */
  function Run(kind: Kind, s: Settings, val: Value): Res<Value> {
    var common := Common(val, s);
    if kind.Basic? then Success(Verdict(common != Some(false), s))
    else if common.Some? then Success(Verdict(common.value, s))
    else Specific(kind, s, val)
  }

  /** The objects a validator reads when it runs. */
  function Footprint(v: Validator): set<ValidationOptions> {
    if v.BuiltIn? then {v.opts} else {}
  }

  /** Calling a validator. */
  function Check(v: Validator, val: Value, data: Value, host: Host): Res<Value>
    reads Footprint(v)
  {
    match v
    case BuiltIn(kind, opts) => Run(kind, opts.Snapshot(), val)
    case Custom(f) => f(val, data, host)
  }

  // ---------------------------------------------------------------------
  // The factories

  /** The factories of every check but `required` and `not_empty`: the
      options are selected and left as they are. */
  method Make(kind: Kind, cfg: ValidationOptions?) returns (v: Validator)
    ensures v.BuiltIn? && v.kind == kind
    ensures cfg != null ==> v.opts == cfg
    ensures cfg == null ==> fresh(v.opts) && v.opts.Snapshot() == Defaults
  {
    var opts := Select(cfg);
    v := BuiltIn(kind, opts);
  }

  /** `required(cfg)`: switches off `empty` and `optional` on the selected
      options object, which the caller may share with other validators. */
  method Required(cfg: ValidationOptions?) returns (v: Validator)
    modifies cfg
    ensures v.BuiltIn? && v.kind == Basic
    ensures cfg != null ==> v.opts == cfg && cfg.message == old(cfg.message)
    ensures cfg == null ==> fresh(v.opts) && v.opts.message == DefaultMessage
    ensures !v.opts.empty && !v.opts.optional
  {
    var opts := Select(cfg);
    opts.empty := false;
    opts.optional := false;
    v := BuiltIn(Basic, opts);
  }

  /** `not_empty(cfg)`: switches off `empty` on the selected options object. */
  method NotEmpty(cfg: ValidationOptions?) returns (v: Validator)
    modifies cfg
    ensures v.BuiltIn? && v.kind == Basic
    ensures cfg != null ==> v.opts == cfg && cfg.message == old(cfg.message) && cfg.optional == old(cfg.optional)
    ensures cfg == null ==> fresh(v.opts) && v.opts.Snapshot() == Settings(DefaultMessage, false, true)
    ensures !v.opts.empty
  {
    var opts := Select(cfg);
    opts.empty := false;
    v := BuiltIn(Basic, opts);
  }

  /** The loop of `ip`: every part must be digits with a value up to 255. */
  method CheckOctets(parts: seq<string>) returns (ok: bool)
    ensures ok == AllOctets(parts)
  {
    for k := 0 to |parts|
      invariant forall m :: 0 <= m < k ==> IsOctet(parts[m])
    {
      if !IsDigits(parts[k]) {
        return false;
      }
      var i := DigitsValue(parts[k]);
      if i < 0 || i > 255 {
        return false;
      }
    }
    return true;
  }

  // ---------------------------------------------------------------------
  // Properties

  /** `__common` decides exactly for `None` and `""`: by `optional` for the
      one, by `empty` for the other; every other value is deferred. */
  lemma CommonDecides(val: Value, s: Settings)
    ensures val == Null ==> Common(val, s) == Some(s.optional)
    ensures val == Str("") ==> Common(val, s) == Some(s.empty)
    ensures Common(val, s).None? <==> val != Null && val != Str("")
  {
    assert Eq(Null, Null) && Eq(Str(""), Str(""));
  }

  /** `basic` fails exactly when `__common` says false. */
  lemma BasicFailsOnlyOnCommon(s: Settings, val: Value)
    ensures Run(Basic, s, val) == Success(if Common(val, s) == Some(false) then Str(s.message) else Bool(true))
  {
  }

  /** With the options `required` leaves, `None` and `""` are rejected with
      the message and everything else is accepted. */
  lemma RequiredRejectsMissingAndEmpty(s: Settings, val: Value)
    requires !s.empty && !s.optional
    ensures Run(Basic, s, val) == Success(if val == Null || val == Str("") then Str(s.message) else Bool(true))
  {
    CommonDecides(val, s);
  }

  /** With default options, `not_empty` rejects `""` but accepts `None`. */
  lemma NotEmptyWithDefaults(message: string)
    ensures Run(Basic, Settings(message, false, true), Str("")) == Success(Str(message))
    ensures Run(Basic, Settings(message, false, true), Null) == Success(Bool(true))
  {
    CommonDecides(Str(""), Settings(message, false, true));
    CommonDecides(Null, Settings(message, false, true));
  }

  /** The words `boolean` accepts, in lower case. */
  const TokenWords: seq<string> :=
    ["1", "true", "t", "on", "yes", "\U{2713}", "0", "false", "f", "off", "no", "x"]

  /** The values `boolean` accepts, written out token by token. */
  predicate BooleanToken(v: Value) {
    match v
    case Bool(_) => true
    case Int(i) => i == 0 || i == 1
    case Str(t) => Lower(t) in TokenWords
    case _ => false
  }

  predicate InTokens(b: Value) {
    Member(b, TrueTokens) || Member(b, FalseTokens)
  }

  lemma IntTokens(i: int)
    ensures InTokens(Int(i)) <==> i == 0 || i == 1
  {
    if i == 1 {
      assert Eq(Int(i), TrueTokens[1]);
    } else if i == 0 {
      assert Eq(Int(i), FalseTokens[1]);
    } else {
      forall k | 0 <= k < |TrueTokens| ensures !Eq(Int(i), TrueTokens[k]) {
      }
      forall k | 0 <= k < |FalseTokens| ensures !Eq(Int(i), FalseTokens[k]) {
      }
    }
  }

  lemma StrTokens(t: string)
    ensures InTokens(Str(t)) <==> t in TokenWords
  {
    if t in TokenWords {
      var k :| 0 <= k < 12 && t == TokenWords[k];
      if k < 6 { assert Eq(Str(t), TrueTokens[k + 2]); } else { assert Eq(Str(t), FalseTokens[k - 4]); }
    } else {
      forall k | 0 <= k < |TrueTokens| ensures !Eq(Str(t), TrueTokens[k]) {
        if 2 <= k { assert TrueTokens[k] == Str(TokenWords[k - 2]); }
      }
      forall k | 0 <= k < |FalseTokens| ensures !Eq(Str(t), FalseTokens[k]) {
        if 2 <= k { assert FalseTokens[k] == Str(TokenWords[k + 4]); }
      }
    }
  }

  /** `boolean` accepts exactly the listed tokens (strings compared in lower
      case) and answers with the message otherwise. */
  lemma BooleanAcceptsExactlyTokens(s: Settings, val: Value)
    requires val != Null && val != Str("")
    ensures Run(Boolean, s, val) == Success(Verdict(BooleanToken(val), s))
  {
    CommonDecides(val, s);
    match val
    case Bool(x) =>
      if x { assert Eq(val, TrueTokens[0]); } else { assert Eq(val, FalseTokens[0]); }
    case Int(i) => IntTokens(i);
    case Str(t) => StrTokens(Lower(t));
    case List(_) =>
      forall k | 0 <= k < |TrueTokens| ensures !Eq(val, TrueTokens[k]) {
      }
      forall k | 0 <= k < |FalseTokens| ensures !Eq(val, FalseTokens[k]) {
      }
    case Dict(_) =>
      forall k | 0 <= k < |TrueTokens| ensures !Eq(val, TrueTokens[k]) {
      }
      forall k | 0 <= k < |FalseTokens| ensures !Eq(val, FalseTokens[k]) {
      }
  }

  /** `numeric` accepts every `int`. */
  lemma NumericAcceptsInt(s: Settings, i: int)
    ensures Run(Numeric("."), s, Int(i)) == Success(Bool(true))
  {
  }

  /** A `bool` is not an `int` here: `True` is rendered as text and
      rejected. */
  lemma NumericRejectsBool(s: Settings, b: bool)
    ensures Run(Numeric("."), s, Bool(b)) == Success(Str(s.message))
  {
    CommonDecides(Bool(b), s);
    BoolTextNotNumber(b);
    assert Specific(Numeric("."), s, Bool(b)) == Success(Str(s.message));
  }

  /** `True` and `False` are not numbers, whatever the decimal point. */
  lemma BoolTextNotNumber(b: bool)
    ensures var num := Strip(Replace(ToStr(Bool(b)), ".", "")); !(num != "" && IsDigits(num))
  {
    var t := ToStr(Bool(b));
    assert t[0] == 'T' || t[0] == 'F';
    ContainsChar(t, '.');
    NumericRejectsLetterLed(t, ".");
  }

  /** A text that starts with neither a space nor a digit, and holds no
      decimal character, is not a number. */
  lemma NumericRejectsLetterLed(t: string, decimal: string)
    requires |t| > 0 && !IsSpace(t[0]) && !IsDigitChar(t[0])
    requires |decimal| > 0 && !Contains(t, decimal)
    ensures var num := Strip(Replace(t, decimal, "")); !(num != "" && IsDigits(num))
  {
    ReplaceAbsent(t, decimal, "");
    var r := TrimEnd(t);
    if |r| > 0 {
      assert r[0] == t[0];
      assert TrimStart(r) == r;
    }
  }

  lemma DigitsNotSpace(t: string)
    requires IsDigits(t)
    ensures Strip(t) == t
  {
    assert !IsSpace(t[|t| - 1]) && !IsSpace(t[0]);
  }

  /** A number written with the configured decimal character (and digits
      on both sides of it) passes `numeric`. */
  lemma NumericAcceptsDecimalNumber(s: Settings, whole: string, c: char, fraction: string)
    requires IsDigits(whole) && IsDigits(fraction) && !IsDigitChar(c)
    ensures Run(Numeric([c]), s, Str(whole + [c] + fraction)) == Success(Bool(true))
  {
    var t := whole + [c] + fraction;
    assert t != "";
    CommonDecides(Str(t), s);
    assert c !in whole && c !in fraction;
    ContainsChar(whole, c);
    ContainsChar(fraction, c);
    NoEarlySepFromFirstChar(whole, [c]);
    NoEarlySepFromFirstChar(fraction, [c]);
    assert Join([c], [whole, fraction]) == t;
    SplitJoin([whole, fraction], [c]);
    assert Split(t, [c]) == [whole, fraction];
    assert Join("", [whole, fraction]) == whole + "" + fraction;
    assert Replace(t, [c], "") == whole + fraction;
    DigitsNotSpace(whole + fraction);
  }

  /** `min_len` fails exactly when the value is shorter than the minimum;
      `min_max_len` also when it is longer than the maximum. */
  lemma LengthBounds(s: Settings, t: string, min: int, max: int)
    requires t != ""
    ensures Run(MinLen(min), s, Str(t)) == Success(Verdict(|t| >= min, s))
    ensures Run(MinMaxLen(min, max), s, Str(t)) == Success(Verdict(min <= |t| <= max, s))
  {
    CommonDecides(Str(t), s);
  }

  /** `max_len`, as written, raises for every value its common checks do
      not decide. */
  lemma MaxLenRaises(s: Settings, val: Value, min: int)
    requires val != Null && val != Str("")
    ensures Run(MaxLen(min), s, val) == Failure(TypeError)
  {
    CommonDecides(val, s);
  }

  /** `ip` splits its value as text, so any other value it is left to
      check raises `AttributeError`. */
  lemma IpOnOther(s: Settings, val: Value)
    requires val != Null && !val.Str?
    ensures Run(Ip, s, val) == Failure(AttributeError)
  {
    CommonDecides(val, s);
  }

  /** On text, `ip` is the four-part octet test. */
  lemma IpOnText(s: Settings, t: string)
    requires t != ""
    ensures Run(Ip, s, Str(t)) == Success(Verdict(|Split(t, ".")| == 4 && AllOctets(Split(t, ".")), s))
  {
    CommonDecides(Str(t), s);
  }

  /** A number up to 255 written in decimal is an octet with no dot in it. */
  lemma DecimalOctet(n: nat)
    requires n <= 255
    ensures IsOctet(NatToDigits(n, 10))
    ensures NoEarlySep(NatToDigits(n, 10), ".")
  {
    var t := NatToDigits(n, 10);
    DecimalDigits(n);
    assert !IsDigitChar('.');
    assert '.' !in t;
    NoEarlySepFromFirstChar(t, ".");
  }

  /** `ip` accepts four octets joined by dots (for instance numbers up to
      255 written in decimal, see `DecimalOctet`). */
  lemma IpAcceptsOctets(s: Settings, parts: seq<string>)
    requires |parts| == 4 && AllOctets(parts)
    requires forall k :: 0 <= k < 4 ==> NoEarlySep(parts[k], ".")
    ensures Run(Ip, s, Str(Join(".", parts))) == Success(Bool(true))
  {
    SplitJoin(parts, ".");
    var t := Join(".", parts);
    assert t == parts[0] + "." + Join(".", parts[1..]);
    IpOnText(s, t);
  }

  /** `ip` rejects a string that does not have exactly four dot-separated
      parts. */
  lemma IpRejectsWrongPartCount(s: Settings, t: string)
    requires t != "" && |Split(t, ".")| != 4
    ensures Run(Ip, s, Str(t)) == Success(Str(s.message))
  {
    IpOnText(s, t);
  }

  /** `values` accepts exactly the members of the list, compared with
      Python's `==` (so `1` matches `True`). */
  lemma ValuesMembership(s: Settings, val: Value, allowed: seq<Value>)
    requires val != Null && val != Str("")
    ensures Run(Values(allowed), s, val) == Success(Verdict(Member(val, allowed), s))
    ensures Run(Values([Bool(true)]), s, Int(1)) == Success(Bool(true))
  {
    CommonDecides(val, s);
    assert Eq(Int(1), [Bool(true)][0]);
  }

  /** `no_tags` rejects a `<` followed by a `>` on the same line, and lets
      the pair through when a line break separates them. */
  lemma NoTagsSameLine(s: Settings, before: string, inside: string, after: string)
    requires '\n' !in inside
    ensures Run(NoTags, s, Str(before + "<" + inside + ">" + after)) == Success(Str(s.message))
    ensures Run(NoTags, s, Str("<\n>")) == Success(Bool(true))
  {
    var t := before + "<" + inside + ">" + after;
    assert t != "";
    CommonDecides(Str(t), s);
    var i, j := |before|, |before| + 1 + |inside|;
    assert t[i] == '<' && t[j] == '>';
    forall k | i < k < j ensures t[k] != '\n' {
      assert t[k] == inside[k - i - 1];
    }
    assert HasTag(t);
    var u := "<\n>";
    CommonDecides(Str(u), s);
    forall i, j | 0 <= i < j < |u| && u[i] == '<' && u[j] == '>'
      ensures exists k :: i < k < j && u[k] == '\n'
    {
      assert i == 0 && j == 2 && u[1] == '\n';
    }
    assert !HasTag(u);
  }
}
