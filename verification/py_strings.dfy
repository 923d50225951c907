/** The Python `str` operations the core relies on: `in`, `find`, `split`,
    `join`, `replace`, `strip`, `rstrip`, `lower`, `isdigit`, `int()`,
    `format(n, 'x')` and `<` on strings.  `lower`, `isdigit` and
    `isnumeric` follow ASCII (see README, "Left out"); `strip` removes
    exactly the characters Python's `isspace` accepts. */
module PyStrings {
  import opened Wrappers

  /** `sub` occurs in `s` starting at index `i`. */
  predicate OccursAt(s: string, sub: string, i: nat) {
    i + |sub| <= |s| && s[i..i + |sub|] == sub
  }

  /** The first occurrence of `sub` in `s` at or after `i`. */
  function FindFrom(s: string, sub: string, i: nat): (r: Option<nat>)
    ensures r.Some? ==> i <= r.value && OccursAt(s, sub, r.value)
    ensures forall j: nat :: i <= j && (r.None? || j < r.value) ==> !OccursAt(s, sub, j)
    decreases |s| - i
  {
    if i + |sub| > |s| then None
    else if OccursAt(s, sub, i) then Some(i)
    else FindFrom(s, sub, i + 1)
  }

  /** `s.find(sub)`, with `None` for Python's -1. */
  function Find(s: string, sub: string): (r: Option<nat>)
    ensures r.Some? ==> OccursAt(s, sub, r.value)
    ensures forall j: nat :: (r.None? || j < r.value) ==> !OccursAt(s, sub, j)
  {
    FindFrom(s, sub, 0)
  }

  /** `sub in s`. */
  predicate Contains(s: string, sub: string)
    ensures Contains(s, sub) <==> exists j: nat :: OccursAt(s, sub, j)
  {
    Find(s, sub).Some?
  }

  lemma ContainsChar(s: string, c: char)
    ensures Contains(s, [c]) <==> c in s
  {
    if c in s {
      var j :| 0 <= j < |s| && s[j] == c;
      assert OccursAt(s, [c], j);
    }
    if Contains(s, [c]) {
      var j: nat :| OccursAt(s, [c], j);
      assert s[j] == s[j..j + 1][0];
    }
  }

  /** An occurrence inside a prefix of `s` is an occurrence in `s`. */
  lemma OccursInPrefix(s: string, sub: string, n: nat, j: nat)
    requires n <= |s|
    requires OccursAt(s[..n], sub, j)
    ensures OccursAt(s, sub, j)
  {
    assert s[..n][j..j + |sub|] == s[j..j + |sub|];
  }

  /** An occurrence that lies inside `a` is an occurrence in `a + b`, and back. */
  lemma OccursAppend(a: string, b: string, sub: string, j: nat)
    requires j + |sub| <= |a|
    ensures OccursAt(a + b, sub, j) <==> OccursAt(a, sub, j)
  {
    assert (a + b)[j..j + |sub|] == a[j..j + |sub|];
  }

  /** `s.split(sep)` for a non-empty separator: the pieces between the
      non-overlapping occurrences of `sep`, scanned from the left. */
  function Split(s: string, sep: string): (parts: seq<string>)
    requires |sep| > 0
    ensures |parts| >= 1
    ensures forall k :: 0 <= k < |parts| ==> !Contains(parts[k], sep)
    decreases |s|
  {
    match Find(s, sep)
    case None => [s]
    case Some(i) =>
      assert !Contains(s[..i], sep) by {
        forall j: nat | OccursAt(s[..i], sep, j) ensures false {
          OccursInPrefix(s, sep, i, j);
        }
      }
      [s[..i]] + Split(s[i + |sep|..], sep)
  }

  /** Text that holds the separator splits into at least two pieces. */
  lemma SplitHasTwo(s: string, sep: string)
    requires |sep| > 0 && Contains(s, sep)
    ensures |Split(s, sep)| >= 2
  {
  }

  /** Text that holds a character at two places splits at it into at least
      three pieces. */
  lemma SplitCharTwice(s: string, c: char, p: nat, q: nat)
    requires p < q < |s| && s[p] == c && s[q] == c
    ensures |Split(s, [c])| >= 3
  {
    assert OccursAt(s, [c], p);
    var i := Find(s, [c]).value;
    assert i <= p;
    var rest := s[i + 1..];
    assert rest[q - i - 1] == c;
    assert OccursAt(rest, [c], q - i - 1);
    SplitHasTwo(rest, [c]);
  }

  /** `sep.join(parts)`. */
  function Join(sep: string, parts: seq<string>): string {
    if |parts| == 0 then ""
    else if |parts| == 1 then parts[0]
    else parts[0] + sep + Join(sep, parts[1..])
  }

  /** Two pieces joined. */
  lemma JoinTwo(sep: string, parts: seq<string>)
    requires |parts| == 2
    ensures Join(sep, parts) == parts[0] + sep + parts[1]
  {
    assert parts[1..] == [parts[1]];
  }

  /** Three pieces joined. */
  lemma JoinThree(sep: string, parts: seq<string>)
    requires |parts| == 3
    ensures Join(sep, parts) == parts[0] + sep + parts[1] + sep + parts[2]
  {
    JoinTwo(sep, parts[1..]);
    assert parts[0] + sep + (parts[1] + sep + parts[2]) == parts[0] + sep + parts[1] + sep + parts[2];
  }

  /** Joining the pieces of a split gives back the string. */
  lemma {:induction false} JoinSplit(s: string, sep: string)
    requires |sep| > 0
    ensures Join(sep, Split(s, sep)) == s
    decreases |s|
  {
    match Find(s, sep)
    case None =>
    case Some(i) =>
      var rest := s[i + |sep|..];
      SplitAt(s, sep, i);
      JoinSplit(rest, sep);
      JoinCons(sep, s[..i], Split(rest, sep));
      assert s == s[..i] + sep + rest;
  }

  /** A split at the first occurrence `i`: the text before it, then the
      pieces of the text after it. */
  lemma SplitAt(s: string, sep: string, i: nat)
    requires |sep| > 0 && Find(s, sep) == Some(i)
    ensures Split(s, sep) == [s[..i]] + Split(s[i + |sep|..], sep)
  {
  }

  /** Joining a piece in front of at least one more. */
  lemma JoinCons(sep: string, p: string, parts: seq<string>)
    requires |parts| >= 1
    ensures Join(sep, [p] + parts) == p + sep + Join(sep, parts)
  {
    assert ([p] + parts)[1..] == parts;
  }

  lemma {:induction false} FindFromAppend(a: string, b: string, sub: string, k: nat, i: nat)
    requires k <= i
    requires FindFrom(a, sub, k) == Some(i)
    ensures FindFrom(a + b, sub, k) == Some(i)
    decreases i - k
  {
    OccursAppend(a, b, sub, k);
    if k < i {
      FindFromAppend(a, b, sub, k + 1, i);
    }
  }

  /** Appending text after the first occurrence does not move it. */
  lemma FindAppend(a: string, b: string, sub: string, i: nat)
    requires Find(a, sub) == Some(i)
    ensures Find(a + b, sub) == Some(i)
  {
    FindFromAppend(a, b, sub, 0, i);
  }

  /** The first occurrence of `sep` in `p + sep` is the appended one: no
      occurrence lies inside `p` or straddles the boundary. */
  predicate NoEarlySep(p: string, sep: string) {
    Find(p + sep, sep) == Some(|p|)
  }

  lemma NoEarlySepNoOccurrence(p: string, sep: string)
    requires |sep| > 0 && NoEarlySep(p, sep)
    ensures !Contains(p, sep)
  {
    if Find(p, sep).Some? {
      FindAppend(p, sep, sep, Find(p, sep).value);
    }
  }

  /** A piece that does not contain the first character of the separator
      can never start an occurrence of it early. */
  lemma NoEarlySepFromFirstChar(p: string, sep: string)
    requires |sep| > 0 && sep[0] !in p
    ensures NoEarlySep(p, sep)
  {
    var s := p + sep;
    assert OccursAt(s, sep, |p|);
    forall j: nat | j < |p| ensures !OccursAt(s, sep, j) {
      assert s[j] == p[j] != sep[0];
      assert j + |sep| <= |s| ==> s[j..j + |sep|][0] == s[j];
    }
    var r := Find(s, sep);
    assert r.Some? && r.value <= |p|;
  }

  /** A split at a first occurrence right after `p`. */
  lemma SplitFirstPiece(p: string, sep: string, rest: string)
    requires |sep| > 0 && Find(p + sep + rest, sep) == Some(|p|)
    ensures Split(p + sep + rest, sep) == [p] + Split(rest, sep)
  {
    var s := p + sep + rest;
    SplitAt(s, sep, |p|);
    assert s[..|p|] == p;
    assert s[|p| + |sep|..] == rest;
  }

  /** Splitting a join gives back the pieces, provided no piece lets the
      separator start before its end. */
  lemma {:induction false} SplitJoin(parts: seq<string>, sep: string)
    requires |sep| > 0 && |parts| >= 1
    requires forall k :: 0 <= k < |parts| ==> NoEarlySep(parts[k], sep)
    ensures Split(Join(sep, parts), sep) == parts
    decreases |parts|
  {
    var p := parts[0];
    if |parts| == 1 {
      NoEarlySepNoOccurrence(p, sep);
    } else {
      var rest := Join(sep, parts[1..]);
      var s := Join(sep, parts);
      assert s == (p + sep) + rest;
      FindAppend(p + sep, rest, sep, |p|);
      SplitFirstPiece(p, sep, rest);
      SplitJoin(parts[1..], sep);
      assert parts == [p] + parts[1..];
    }
  }

  /** `ins` before every character of `s` and once more at the end: what
      Python's `s.replace('', ins)` produces. */
  function Interleave(s: string, ins: string): string {
    if |s| == 0 then ins else ins + [s[0]] + Interleave(s[1..], ins)
  }

  /** `s.replace(pat, ins)`: every non-overlapping occurrence, from the left. */
  function Replace(s: string, pat: string, ins: string): string {
    if |pat| == 0 then Interleave(s, ins) else Join(ins, Split(s, pat))
  }

  lemma {:induction false} ReplaceEmptyByEmpty(s: string)
    ensures Replace(s, "", "") == s
    decreases |s|
  {
    if |s| > 0 {
      ReplaceEmptyByEmpty(s[1..]);
      assert s == [s[0]] + s[1..];
    }
  }

  lemma ReplaceAbsent(s: string, pat: string, ins: string)
    requires |pat| > 0 && !Contains(s, pat)
    ensures Replace(s, pat, ins) == s
  {
  }

  /** Character-for-character substitution of `a` by `b`. */
  function SubstChar(s: string, a: char, b: char): (r: string)
    ensures |r| == |s|
    ensures forall k :: 0 <= k < |s| ==> r[k] == if s[k] == a then b else s[k]
  {
    if |s| == 0 then [] else [if s[0] == a then b else s[0]] + SubstChar(s[1..], a, b)
  }

  /** Replacing one character by one character is substitution. */
  lemma {:induction false} ReplaceOneChar(s: string, a: char, b: char)
    ensures Replace(s, [a], [b]) == SubstChar(s, a, b)
    decreases |s|
  {
    match Find(s, [a])
    case None =>
      forall k | 0 <= k < |s| ensures s[k] != a {
        assert !OccursAt(s, [a], k) && s[k..k + 1][0] == s[k];
      }
      assert SubstChar(s, a, b) == s;
    case Some(i) =>
      ReplaceOneChar(s[i + 1..], a, b);
      ReplaceAtFirst(s, a, b, i);
      SubstAtFirst(s, a, b, i);
  }

  /** Replacing at the first occurrence `i` of `a`. */
  lemma ReplaceAtFirst(s: string, a: char, b: char, i: nat)
    requires Find(s, [a]) == Some(i)
    ensures Replace(s, [a], [b]) == s[..i] + [b] + Replace(s[i + 1..], [a], [b])
  {
    var parts := Split(s, [a]);
    assert parts == [s[..i]] + Split(s[i + 1..], [a]);
  }

  /** The first occurrence of a character: it is there, and not before. */
  lemma FindCharFirst(s: string, a: char, i: nat)
    requires Find(s, [a]) == Some(i)
    ensures i < |s| && s[i] == a && forall k :: 0 <= k < i ==> s[k] != a
  {
    assert s[i..i + 1][0] == s[i];
    forall k | 0 <= k < i ensures s[k] != a {
      assert !OccursAt(s, [a], k) && s[k..k + 1][0] == s[k];
    }
  }

  /** Substituting up to and including the first occurrence `i` of `a`. */
  lemma SubstAtFirst(s: string, a: char, b: char, i: nat)
    requires Find(s, [a]) == Some(i)
    ensures SubstChar(s, a, b) == s[..i] + [b] + SubstChar(s[i + 1..], a, b)
  {
    FindCharFirst(s, a, i);
    var r := SubstChar(s, a, b);
    var rest := s[i + 1..];
    var q := s[..i] + [b] + SubstChar(rest, a, b);
    forall k | 0 <= k < |s| ensures r[k] == q[k] {
      if k > i {
        assert rest[k - i - 1] == s[k];
      }
    }
  }

  /** Python's `str.isspace()` characters. */
  predicate IsSpace(c: char) {
    c == ' ' || ('\t' <= c <= '\r') || ('\U{1C}' <= c <= '\U{1F}')
    || c == '\U{85}' || c == '\U{A0}' || c == '\U{1680}'
    || ('\U{2000}' <= c <= '\U{200A}') || c == '\U{2028}' || c == '\U{2029}'
    || c == '\U{202F}' || c == '\U{205F}' || c == '\U{3000}'
  }

  function TrimStart(s: string): (r: string)
    ensures |r| <= |s| && r == s[|s| - |r|..]
    ensures |r| > 0 ==> !IsSpace(r[0])
  {
    if |s| > 0 && IsSpace(s[0]) then TrimStart(s[1..]) else s
  }

  function TrimEnd(s: string): (r: string)
    ensures |r| <= |s| && r == s[..|r|]
    ensures |r| > 0 ==> !IsSpace(r[|r| - 1])
  {
    if |s| > 0 && IsSpace(s[|s| - 1]) then TrimEnd(s[..|s| - 1]) else s
  }

  /** `s.strip()`. */
  function Strip(s: string): string {
    TrimStart(TrimEnd(s))
  }

  /** `s.rstrip(c)` for a one-character argument. */
  function RStripChar(s: string, c: char): (r: string)
    ensures |r| <= |s| && r == s[..|r|]
    ensures |r| > 0 ==> r[|r| - 1] != c
    ensures forall k :: |r| <= k < |s| ==> s[k] == c
  {
    if |s| > 0 && s[|s| - 1] == c then RStripChar(s[..|s| - 1], c) else s
  }

  function LowerChar(c: char): char {
    if 'A' <= c <= 'Z' then (c as int - 'A' as int + 'a' as int) as char else c
  }

  /** `s.lower()`. */
  function Lower(s: string): (r: string)
    ensures |r| == |s| && forall k :: 0 <= k < |s| ==> r[k] == LowerChar(s[k])
  {
    if |s| == 0 then [] else [LowerChar(s[0])] + Lower(s[1..])
  }

  predicate IsDigitChar(c: char) { '0' <= c <= '9' }

  /** `s.isdigit()` (also used for `s.isnumeric()`). */
  predicate IsDigits(s: string) {
    |s| > 0 && forall k :: 0 <= k < |s| ==> IsDigitChar(s[k])
  }

  /** `int(s)` of a digit string. */
  function DigitsValue(s: string): (n: nat)
    requires forall k :: 0 <= k < |s| ==> IsDigitChar(s[k])
  {
    if |s| == 0 then 0
    else
      assert IsDigitChar(s[|s| - 1]);
      DigitsValue(s[..|s| - 1]) * 10 + (s[|s| - 1] as int - '0' as int)
  }

  function DigitChar(d: nat): char
    requires d < 16
  {
    if d < 10 then ('0' as int + d) as char else ('a' as int + d - 10) as char
  }

  function NatToDigits(n: nat, base: nat): string
    requires 2 <= base <= 16
    decreases n
  {
    if n < base then [DigitChar(n)] else NatToDigits(n / base, base) + [DigitChar(n % base)]
  }

  /** `str(i)` of an integer. */
  function IntToStr(i: int): string {
    if i < 0 then "-" + NatToDigits(-i, 10) else NatToDigits(i, 10)
  }

  /** `int(str(n))` gives back `n`: decimal digits round-trip. */
  lemma {:induction false} DecimalDigits(n: nat)
    ensures IsDigits(NatToDigits(n, 10))
    ensures DigitsValue(NatToDigits(n, 10)) == n
    decreases n
  {
    var s := NatToDigits(n, 10);
    if n >= 10 {
      DecimalDigits(n / 10);
      var front := NatToDigits(n / 10, 10);
      assert s == front + [DigitChar(n % 10)];
      assert s[..|s| - 1] == front;
    }
  }

  /** `format(n, 'x')`: lower-case hexadecimal without leading zeros. */
  function Hex(n: nat): (r: string)
    ensures |r| >= 1 && '_' !in r
  {
    HexDigitsNoUnderscore(n);
    NatToDigits(n, 16)
  }

  lemma {:induction false} HexDigitsNoUnderscore(n: nat)
    ensures |NatToDigits(n, 16)| >= 1 && '_' !in NatToDigits(n, 16)
    decreases n
  {
    if n >= 16 {
      HexDigitsNoUnderscore(n / 16);
    }
  }

  /** Python's `a <= b` on strings: lexicographic by code point. */
  predicate LexLe(a: string, b: string) {
    if |a| == 0 then true
    else if |b| == 0 then false
    else if a[0] != b[0] then a[0] < b[0]
    else LexLe(a[1..], b[1..])
  }

  lemma {:induction false} LexLeTotal(a: string, b: string)
    ensures LexLe(a, b) || LexLe(b, a)
    decreases |a|
  {
    if |a| > 0 && |b| > 0 && a[0] == b[0] {
      LexLeTotal(a[1..], b[1..]);
    }
  }

  lemma {:induction false} LexLeTransitive(a: string, b: string, c: string)
    requires LexLe(a, b) && LexLe(b, c)
    ensures LexLe(a, c)
    decreases |a|
  {
    if |a| > 0 && |b| > 0 && |c| > 0 && a[0] == b[0] && b[0] == c[0] {
      LexLeTransitive(a[1..], b[1..], c[1..]);
    }
  }

  lemma {:induction false} LexLeReflexive(a: string)
    ensures LexLe(a, a)
    decreases |a|
  {
    if |a| > 0 {
      LexLeReflexive(a[1..]);
    }
  }

  lemma {:induction false} LexLeAntisymmetric(a: string, b: string)
    requires LexLe(a, b) && LexLe(b, a)
    ensures a == b
    decreases |a|
  {
    if |a| > 0 && |b| > 0 {
      LexLeAntisymmetric(a[1..], b[1..]);
      assert a == [a[0]] + a[1..] && b == [b[0]] + b[1..];
    }
  }

  /** `k` is a member of `keys` ordered before every member. */
  predicate IsLeast(k: string, keys: set<string>) {
    k in keys && forall j :: j in keys ==> LexLe(k, j)
  }

  /** A non-empty set of strings has a least element. */
  lemma {:induction false} LeastExists(keys: set<string>)
    requires keys != {}
    ensures exists k :: IsLeast(k, keys)
    decreases |keys|
  {
    var x :| x in keys;
    LexLeReflexive(x);
    var rest := keys - {x};
    if rest == {} {
      assert keys == {x};
      assert IsLeast(x, keys);
    } else {
      LeastExists(rest);
      var m :| IsLeast(m, rest);
      LexLeTotal(x, m);
      if LexLe(x, m) {
        forall j | j in keys ensures LexLe(x, j) {
          if j != x {
            assert j in rest;
            LexLeTransitive(x, m, j);
          }
        }
        assert IsLeast(x, keys);
      } else {
        forall j | j in keys ensures LexLe(m, j) {
          if j != x {
            assert j in rest;
          }
        }
        assert IsLeast(m, keys);
      }
    }
  }

  lemma LeastUnique(keys: set<string>)
    ensures forall a, b :: IsLeast(a, keys) && IsLeast(b, keys) ==> a == b
  {
    forall a, b | IsLeast(a, keys) && IsLeast(b, keys) ensures a == b {
      LexLeAntisymmetric(a, b);
    }
  }

  /** The strings of a set in ascending order, each once: the order in
      which the model lists the keys of a dictionary. */
  function KeyOrder(keys: set<string>): (r: seq<string>)
    ensures |r| == |keys|
    ensures forall k :: k in r <==> k in keys
    ensures forall i, j :: 0 <= i < j < |r| ==> LexLe(r[i], r[j])
    decreases |keys|
  {
    if keys == {} then []
    else
      LeastExists(keys);
      LeastUnique(keys);
      var k :| IsLeast(k, keys);
      [k] + KeyOrder(keys - {k})
  }

  /** A single key is listed alone. */
  lemma KeyOrderSingle(k: string)
    ensures KeyOrder({k}) == [k]
  {
    assert k in KeyOrder({k});
  }

  /** One character as `repr` shows it inside quotes `q`: the quote and
      the backslash escaped, tab, newline and carriage return by name, other
      control characters as `\xNN`. */
  function EscapeChar(c: char, q: char): string {
    if c == q || c == '\\' then ['\\', c]
    else if c == '\t' then "\\t"
    else if c == '\n' then "\\n"
    else if c == '\r' then "\\r"
    else if c as int < 0x20 || c as int == 0x7f then "\\x" + [DigitChar(c as int / 16), DigitChar(c as int % 16)]
    else [c]
  }

  function Escaped(s: string, q: char): string {
    if |s| == 0 then "" else EscapeChar(s[0], q) + Escaped(s[1..], q)
  }

  /** `repr(s)`: single quotes, unless the string holds a single quote and
      no double quote. */
  function StrRepr(s: string): (r: string)
    ensures |r| >= 2 && r[0] == r[|r| - 1]
    ensures r[0] == (if '\'' in s && '"' !in s then '"' else '\'')
  {
    var q := if '\'' in s && '"' !in s then '"' else '\'';
    [q] + Escaped(s, q) + [q]
  }

  /** A character `repr` shows as itself inside either kind of quotes. */
  predicate Plain(c: char) {
    c != '\'' && c != '"' && c != '\\' && 0x20 <= c as int && c as int != 0x7f
  }

  lemma {:induction false} EscapedPlain(s: string, q: char)
    requires q == '\'' || q == '"'
    requires forall k :: 0 <= k < |s| ==> Plain(s[k]) || (s[k] != q && (s[k] == '\'' || s[k] == '"'))
    ensures Escaped(s, q) == s
    decreases |s|
  {
    if |s| > 0 {
      EscapedPlain(s[1..], q);
      assert EscapeChar(s[0], q) == [s[0]];
      assert s == [s[0]] + s[1..];
    }
  }

  /** Text of plain characters is shown as itself in single quotes. */
  lemma StrReprPlain(s: string)
    requires forall k :: 0 <= k < |s| ==> Plain(s[k])
    ensures StrRepr(s) == "'" + s + "'"
  {
    EscapedPlain(s, '\'');
  }

  /** Text holding a single quote and no double quote is shown in double
      quotes, its single quotes left as they are. */
  lemma StrReprDoubleQuoted(s: string)
    requires forall k :: 0 <= k < |s| ==> Plain(s[k]) || s[k] == '\''
    requires '\'' in s
    ensures StrRepr(s) == "\"" + s + "\""
  {
    EscapedPlain(s, '"');
  }

  /** Text holding both kinds of quotes is shown in single quotes, its
      single quotes escaped. */
  lemma StrReprBothQuotes()
    ensures StrRepr("'\"") == "'\\'\"'"
  {
    var s := "'\"";
    assert '"' in s;
    assert Escaped(s[1..], '\'') == "\"" by {
      assert Escaped(s[1..][1..], '\'') == "";
    }
  }
}
