/**
 * The JavaScript values that reach the two pages from the task table, and the
 * few built-in operations on them that the pages rely on: truthiness, `??`,
 * `String(v)`, `trim`, `split`, `includes`, case mapping and string comparison.
 */
module Js {

  datatype Option<T> = None | Some(value: T)

  /**
   * A JavaScript value as it can appear in a row. Numbers are integers; `Obj`
   * stands for every other object (a plain object or a function).
   */
  datatype Value =
    | Undefined
    | Null
    | Bool(b: bool)
    | Num(n: int)
    | Str(s: string)
    | Arr(items: seq<Value>)
    | Obj

  /** `!!v`: the falsy values are undefined, null, false, 0 and "". */
  function Truthy(v: Value): (truthy: bool)
    ensures !truthy <==> v == Undefined || v == Null || v == Bool(false) || v == Num(0) || v == Str("")
  {
    match v
    case Undefined => false
    case Null => false
    case Bool(b) => b
    case Num(n) => n != 0
    case Str(s) => s != ""
    case Arr(_) => true
    case Obj => true
  }

  /** `v == null` (loose equality), the test behind `v ?? d`. */
  predicate IsNullish(v: Value) {
    v.Undefined? || v.Null?
  }

  /** `v ?? d` */
  function Coalesce(v: Value, d: Value): (r: Value)
    ensures !IsNullish(v) ==> r == v
    ensures IsNullish(v) ==> r == d
  {
    if IsNullish(v) then d else v
  }

  // ---------------------------------------------------------------------------
  // String(v)
  // ---------------------------------------------------------------------------

  function Digit(d: int): (c: char)
    requires 0 <= d < 10
    ensures '0' <= c <= '9'
  {
    (48 + d) as char
  }

  /** s is made of decimal digits only. */
  predicate IsNumeral(s: string) {
    forall i :: 0 <= i < |s| ==> '0' <= s[i] <= '9'
  }

  /** The number a string of decimal digits denotes, most significant digit first. */
  function NumeralValue(s: string): nat
    requires IsNumeral(s)
  {
    if s == [] then 0 else NumeralValue(s[..|s| - 1]) * 10 + (s[|s| - 1] as int - 48)
  }

  /** Decimal digits of a natural number, most significant first, no leading zero. */
  function NatToString(n: nat): (r: string)
    ensures 1 <= |r|
    ensures |r| == 1 <==> n < 10
    ensures '0' <= r[0] <= '9'
    ensures r[0] == '0' ==> n == 0
    ensures IsNumeral(r) && NumeralValue(r) == n
  {
    if n < 10 then [Digit(n)]
    else
      var digits := NatToString(n / 10) + [Digit(n % 10)];
      assert digits[..|digits| - 1] == NatToString(n / 10);
      digits
  }

  /** Number-to-string conversion for integers. */
  function IntToString(i: int): (r: string)
    ensures 1 <= |r|
    ensures i < 0 <==> r[0] == '-'
    ensures i >= 0 ==> '0' <= r[0] <= '9'
    ensures |r| == 1 <==> 0 <= i < 10
    ensures 0 <= i < 10 ==> r == [Digit(i)]
    ensures i >= 0 ==> IsNumeral(r) && NumeralValue(r) == i
    ensures i < 0 ==> IsNumeral(r[1..]) && NumeralValue(r[1..]) == -i
    ensures i >= 0 && r[0] == '0' ==> i == 0
    ensures i < 0 ==> |r| >= 2 && r[1] != '0'
  {
    if i < 0 then
      var r := "-" + NatToString(-i);
      assert r[1..] == NatToString(-i);
      r
    else NatToString(i)
  }

  /** `parts.join(sep)` */
  function Join(parts: seq<string>, sep: string): (r: string)
    ensures |parts| == 0 ==> r == ""
    ensures |parts| > 0 ==> parts[0] <= r
  {
    if |parts| == 0 then ""
    else if |parts| == 1 then parts[0]
    else parts[0] + sep + Join(parts[1..], sep)
  }

  /**
   * `String(v)`. An array prints its elements joined by "," with null and
   * undefined elements printed as empty strings.
   */
  function ToString(v: Value): (r: string)
    ensures v.Str? ==> r == v.s
    ensures v.Undefined? ==> r == "undefined"
    ensures v.Null? ==> r == "null"
    ensures v.Bool? ==> r == (if v.b then "true" else "false")
    ensures v.Num? ==> r != [] && (r[0] == '-' <==> v.n < 0) && (v.n >= 0 ==> '0' <= r[0] <= '9')
    ensures v.Num? && v.n >= 0 ==> IsNumeral(r) && NumeralValue(r) == v.n
    ensures v.Num? && v.n < 0 ==> IsNumeral(r[1..]) && NumeralValue(r[1..]) == -v.n
    ensures v.Num? && v.n >= 0 && r[0] == '0' ==> v.n == 0
    ensures v.Num? && v.n < 0 ==> |r| >= 2 && r[1] != '0'
  {
    match v
    case Undefined => "undefined"
    case Null => "null"
    case Bool(b) => if b then "true" else "false"
    case Num(n) => IntToString(n)
    case Str(s) => s
    case Arr(items) =>
      Join(seq(|items|, i requires 0 <= i < |items| =>
                 if IsNullish(items[i]) then "" else ToString(items[i])), ",")
    case Obj => "[object Object]"
  }

  // ---------------------------------------------------------------------------
  // Characters
  // ---------------------------------------------------------------------------

  /** The characters matched by `\s` and removed by `trim`: WhiteSpace and LineTerminator. */
  predicate IsSpace(c: char) {
    c == '\t' || c == '\n' || c == '\U{B}' || c == '\U{C}' || c == '\r' || c == ' '
    || c == '\U{A0}' || c == '\U{1680}' || ('\U{2000}' <= c <= '\U{200A}')
    || c == '\U{2028}' || c == '\U{2029}' || c == '\U{202F}' || c == '\U{205F}'
    || c == '\U{3000}' || c == '\U{FEFF}'
  }

  predicate AllSpace(s: string) {
    forall i :: 0 <= i < |s| ==> IsSpace(s[i])
  }

  predicate NoSpace(s: string) {
    forall i :: 0 <= i < |s| ==> !IsSpace(s[i])
  }

  function UpperChar(c: char): char {
    if 'a' <= c <= 'z' then (c as int - 32) as char else c
  }

  function LowerChar(c: char): char {
    if 'A' <= c <= 'Z' then (c as int + 32) as char else c
  }

  /** `s.toUpperCase()` on ASCII letters. */
  function Upper(s: string): (r: string)
    ensures |r| == |s|
    ensures forall i :: 0 <= i < |s| ==> r[i] == UpperChar(s[i])
    ensures forall i :: 0 <= i < |r| ==> !('a' <= r[i] <= 'z')
    ensures forall i :: 0 <= i < |s| && !('a' <= s[i] <= 'z') ==> r[i] == s[i]
  {
    seq(|s|, i requires 0 <= i < |s| => UpperChar(s[i]))
  }

  /** `s.toLowerCase()` on ASCII letters. */
  function Lower(s: string): (r: string)
    ensures |r| == |s|
    ensures forall i :: 0 <= i < |s| ==> r[i] == LowerChar(s[i])
    ensures forall i :: 0 <= i < |r| ==> !('A' <= r[i] <= 'Z')
    ensures forall i :: 0 <= i < |s| && !('A' <= s[i] <= 'Z') ==> r[i] == s[i]
  {
    seq(|s|, i requires 0 <= i < |s| => LowerChar(s[i]))
  }

  // ---------------------------------------------------------------------------
  // trim, includes
  // ---------------------------------------------------------------------------

  function TrimStart(s: string): (r: string)
    ensures |r| <= |s| && r == s[|s| - |r|..]
    ensures AllSpace(s[..|s| - |r|])
    ensures r == [] || !IsSpace(r[0])
  {
    if s != [] && IsSpace(s[0]) then TrimStart(s[1..]) else s
  }

  function TrimEnd(s: string): (r: string)
    ensures |r| <= |s| && r == s[..|r|]
    ensures AllSpace(s[|r|..])
    ensures r == [] || !IsSpace(r[|r| - 1])
  {
    if s != [] && IsSpace(s[|s| - 1]) then TrimEnd(s[..|s| - 1]) else s
  }

  /**
   * Where the text that `trim` keeps lies in s: t is s after a run of
   * whitespace, and r is t before another.
   */
  lemma TrimMiddle(s: string, t: string, r: string)
    requires |t| <= |s| && t == s[|s| - |t|..] && AllSpace(s[..|s| - |t|])
    requires |r| <= |t| && r == t[..|r|] && AllSpace(t[|r|..])
    ensures r == s[|s| - |t|..|s| - |t| + |r|]
    ensures AllSpace(s[|s| - |t| + |r|..])
  {
    assert t[|r|..] == s[|s| - |t| + |r|..];
  }

  /** r stands at position a of s, with only whitespace before and after it. */
  predicate SurroundedBySpace(s: string, r: string, a: nat) {
    a + |r| <= |s| && r == s[a..a + |r|] && AllSpace(s[..a]) && AllSpace(s[a + |r|..])
  }

  /** `trim` leaves nothing exactly when s is whitespace only. */
  lemma TrimEmpty(s: string)
    ensures TrimEnd(TrimStart(s)) == [] <==> AllSpace(s)
  {
    var t := TrimStart(s);
    if TrimEnd(t) == [] {
      assert AllSpace(t[0..]);
      assert s[..|s| - |t|] == s[..|s| - |t|] + t[0..];
      assert s[..|s| - |t|] + t[0..] == s;
    } else {
      assert t[0] == s[|s| - |t|];
    }
  }

  /**
   * `s.trim()`: s with the whitespace at both ends removed. What is left has
   * no whitespace at either end, and nothing is left exactly when s is
   * whitespace only.
   */
  function Trim(s: string): (r: string)
    ensures |r| <= |s|
    ensures exists a: nat :: SurroundedBySpace(s, r, a)
    ensures r == [] || (!IsSpace(r[0]) && !IsSpace(r[|r| - 1]))
    ensures r == [] <==> AllSpace(s)
  {
    var t := TrimStart(s);
    var kept := TrimEnd(t);
    TrimMiddle(s, t, kept);
    TrimEmpty(s);
    assert SurroundedBySpace(s, kept, |s| - |t|);
    kept
  }

  /** `h.includes(n)` for strings: n occurs as a contiguous piece of h. */
  function Contains(h: string, n: string): (c: bool)
    ensures n == [] ==> c
    ensures c ==> |n| <= |h|
  {
    n <= h || (h != [] && Contains(h[1..], n))
  }

  /** n occurs in h starting at position i. */
  predicate OccursAt(h: string, n: string, i: nat) {
    i + |n| <= |h| && h[i..i + |n|] == n
  }

  /** Where `includes` finds n. */
  lemma {:induction false} ContainsAt(h: string, n: string) returns (i: nat)
    requires Contains(h, n)
    ensures OccursAt(h, n, i)
  {
    if n <= h {
      i := 0;
    } else {
      var j := ContainsAt(h[1..], n);
      assert h[1..][j..j + |n|] == h[j + 1..j + 1 + |n|];
      i := j + 1;
    }
  }

  /** An occurrence anywhere is found by `includes`. */
  lemma {:induction false} OccursContained(h: string, n: string, i: nat)
    requires OccursAt(h, n, i)
    ensures Contains(h, n)
    decreases i
  {
    if i > 0 {
      assert h[1..][i - 1..i - 1 + |n|] == h[i..i + |n|];
      OccursContained(h[1..], n, i - 1);
    }
  }

  /** `includes` holds exactly when n occurs at some position of h. */
  lemma ContainsIffOccurs(h: string, n: string)
    ensures Contains(h, n) <==> exists i: nat :: OccursAt(h, n, i)
  {
    if Contains(h, n) {
      var i := ContainsAt(h, n);
    }
    if exists i: nat :: OccursAt(h, n, i) {
      var i: nat :| OccursAt(h, n, i);
      OccursContained(h, n, i);
    }
  }

  // ---------------------------------------------------------------------------
  // split
  // ---------------------------------------------------------------------------

  /** `s.split(sep)` for a one-character separator: always at least one part; "" gives [""]. */
  function Split(s: string, sep: char): (parts: seq<string>)
    ensures |parts| >= 1
    ensures forall k :: 0 <= k < |parts| ==> sep !in parts[k]
  {
    if s == [] then [""]
    else
      var rest := Split(s[1..], sep);
      if s[0] == sep then [""] + rest else [[s[0]] + rest[0]] + rest[1..]
  }

  /** Joining the parts back with the separator gives the original string. */
  lemma {:induction false} JoinSplit(s: string, sep: char)
    ensures Join(Split(s, sep), [sep]) == s
  {
    if s != [] {
      var rest := Split(s[1..], sep);
      JoinSplit(s[1..], sep);
      if s[0] == sep {
        assert Split(s, sep) == [""] + rest;
        assert ([""] + rest)[1..] == rest;
      } else {
        var parts := [[s[0]] + rest[0]] + rest[1..];
        if |rest| > 1 {
          assert parts[1..] == rest[1..];
          assert Join(rest, [sep]) == rest[0] + [sep] + Join(rest[1..], [sep]);
        }
      }
    }
  }

  /** A string without the separator splits into itself. */
  lemma {:induction false} SplitNone(a: string, sep: char)
    requires sep !in a
    ensures Split(a, sep) == [a]
  {
    if a != [] {
      assert a == [a[0]] + a[1..];
      SplitNone(a[1..], sep);
    }
  }

  /** A separator-free prefix followed by the separator becomes the first part. */
  lemma {:induction false} SplitCons(a: string, sep: char, rest: string)
    requires sep !in a
    ensures Split(a + [sep] + rest, sep) == [a] + Split(rest, sep)
  {
    if a == [] {
      assert a + [sep] + rest == [sep] + rest;
      assert (a + [sep] + rest)[1..] == rest;
    } else {
      assert a == [a[0]] + a[1..];
      SplitCons(a[1..], sep, rest);
      assert (a + [sep] + rest)[1..] == a[1..] + [sep] + rest;
    }
  }

  /** A separator-free prefix is glued onto the first part. */
  lemma {:induction false} SplitPrefixFirst(a: string, sep: char, rest: string)
    requires sep !in a
    ensures Split(a + rest, sep) == [a + Split(rest, sep)[0]] + Split(rest, sep)[1..]
  {
    if a == [] {
      var parts := Split(rest, sep);
      assert a + rest == rest && a + parts[0] == parts[0];
      assert [parts[0]] + parts[1..] == parts;
    } else {
      assert a == [a[0]] + a[1..];
      SplitPrefixFirst(a[1..], sep, rest);
      assert (a + rest)[1..] == a[1..] + rest;
      assert [a[0]] + (a[1..] + Split(rest, sep)[0]) == a + Split(rest, sep)[0];
    }
  }

  /**
   * Parts joined by a glue that starts with the separator and otherwise holds
   * none split back into the first part, then each later part behind the rest
   * of the glue.
   */
  lemma {:induction false} SplitJoinParts(parts: seq<string>, sep: char, glue: string)
    requires |parts| >= 1
    requires forall k :: 0 <= k < |parts| ==> sep !in parts[k]
    requires glue != [] && glue[0] == sep && sep !in glue[1..]
    ensures Split(Join(parts, glue), sep)
            == [parts[0]] + seq(|parts| - 1, i requires 0 <= i < |parts| - 1 => glue[1..] + parts[i + 1])
  {
    if |parts| == 1 {
      SplitNone(parts[0], sep);
    } else {
      var tail := Join(parts[1..], glue);
      SplitJoinParts(parts[1..], sep, glue);
      var later := seq(|parts| - 2, i requires 0 <= i < |parts| - 2 => glue[1..] + parts[i + 2]);
      assert Split(tail, sep) == [parts[1]] + later;
      assert glue == [sep] + glue[1..];
      assert Join(parts, glue) == parts[0] + [sep] + (glue[1..] + tail);
      SplitCons(parts[0], sep, glue[1..] + tail);
      SplitPrefixFirst(glue[1..], sep, tail);
      assert Split(glue[1..] + tail, sep) == [glue[1..] + parts[1]] + later;
      assert [glue[1..] + parts[1]] + later
             == seq(|parts| - 1, i requires 0 <= i < |parts| - 1 => glue[1..] + parts[i + 1]);
    }
  }

  /** `s.split(/\s+/)`: runs of whitespace separate the parts. */
  function SplitSpaces(s: string): (parts: seq<string>)
    ensures |parts| >= 1
    ensures forall k :: 0 <= k < |parts| ==> NoSpace(parts[k])
  {
    if s == [] then [""]
    else
      var rest := SplitSpaces(s[1..]);
      if !IsSpace(s[0]) then
        assert forall i :: 1 <= i <= |rest[0]| ==> ([s[0]] + rest[0])[i] == rest[0][i - 1];
        [[s[0]] + rest[0]] + rest[1..]
      else if |s| > 1 && IsSpace(s[1]) then rest
      else [""] + rest
  }

  /** A string without whitespace is one part. */
  lemma {:induction false} SplitSpacesNone(s: string)
    requires NoSpace(s)
    ensures SplitSpaces(s) == [s]
  {
    if s != [] {
      assert NoSpace(s[1..]) by {
        forall k | 0 <= k < |s[1..]| ensures !IsSpace(s[1..][k]) {
          assert s[1..][k] == s[k + 1];
        }
      }
      SplitSpacesNone(s[1..]);
      assert s == [s[0]] + s[1..];
    }
  }

  /** A string that starts with a non-space character: its first part starts with it. */
  lemma SplitSpacesFirst(s: string)
    requires s != [] && !IsSpace(s[0])
    ensures SplitSpaces(s)[0] != [] && SplitSpaces(s)[0][0] == s[0]
  {
  }

  /**
   * When s[k] is the last whitespace character of s, there are at least two
   * parts and the last one is everything after position k.
   */
  lemma {:induction false} SplitSpacesLast(s: string, k: nat)
    requires k < |s| && IsSpace(s[k]) && NoSpace(s[k + 1..])
    ensures |SplitSpaces(s)| >= 2
    ensures SplitSpaces(s)[|SplitSpaces(s)| - 1] == s[k + 1..]
  {
    var rest := SplitSpaces(s[1..]);
    if k == 0 {
      SplitSpacesNone(s[1..]);
      assert rest == [s[1..]];
      if |s| > 1 {
        assert !IsSpace(s[1..][0]);
      }
    } else {
      assert s[1..][k..] == s[k + 1..];
      SplitSpacesLast(s[1..], k - 1);
    }
  }

  // ---------------------------------------------------------------------------
  // String comparison
  // ---------------------------------------------------------------------------

  /**
   * Code-point lexicographic order: `a <= b` on strings. This stands in for
   * `a.localeCompare(b) <= 0`.
   */
  predicate StrLe(a: string, b: string) {
    a == [] || (b != [] && (a[0] < b[0] || (a[0] == b[0] && StrLe(a[1..], b[1..]))))
  }

  /** A prefix comes first, and otherwise the first characters decide first. */
  lemma {:induction false} StrLeBasics(a: string, b: string)
    ensures a <= b ==> StrLe(a, b)
    ensures StrLe(a, b) && a != [] ==> b != [] && a[0] <= b[0]
  {
    if a != [] && a <= b {
      assert a[1..] <= b[1..];
      StrLeBasics(a[1..], b[1..]);
    }
  }

  lemma {:induction false} StrLeReflexive(a: string)
    ensures StrLe(a, a)
  {
    if a != [] {
      StrLeReflexive(a[1..]);
    }
  }

  /** `a.localeCompare(b)` in code-point order: negative, zero or positive. */
  function StrCompare(a: string, b: string): (r: int)
    ensures r == 0 <==> a == b
    ensures r <= 0 <==> StrLe(a, b)
  {
    StrLeReflexive(a);
    if a == b then 0 else if StrLe(a, b) then -1 else 1
  }

  lemma {:induction false} StrLeTotal(a: string, b: string)
    ensures StrLe(a, b) || StrLe(b, a)
  {
    if a != [] && b != [] && a[0] == b[0] {
      StrLeTotal(a[1..], b[1..]);
    }
  }

  lemma {:induction false} StrLeTransitive(a: string, b: string, c: string)
    requires StrLe(a, b) && StrLe(b, c)
    ensures StrLe(a, c)
  {
    if a != [] && a[0] == b[0] && b[0] == c[0] {
      StrLeTransitive(a[1..], b[1..], c[1..]);
    }
  }
}
