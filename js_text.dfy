/** The JavaScript string built-ins the worker and the signup page rely on:
    `trim`, `toLowerCase`, `split` and `join` with a one-character separator,
    and `parseInt` without a radix. Strings are sequences of Unicode scalar
    values: a character outside the Basic Multilingual Plane is one `char`
    here, where JavaScript sees two UTF-16 code units. */
module JsText {
  import opened Wrappers

  /** A WhiteSpace or LineTerminator code point of ECMAScript: what `trim`
      strips from both ends and what `parseInt` skips at the front. */
  predicate IsJsSpace(c: char) {
    c == '\t' || c == '\n' || c == '\U{B}' || c == '\U{C}' || c == '\r' || c == ' '
    || c == '\U{A0}' || c == '\U{1680}' || ('\U{2000}' <= c <= '\U{200A}')
    || c == '\U{2028}' || c == '\U{2029}' || c == '\U{202F}' || c == '\U{205F}'
    || c == '\U{3000}' || c == '\U{FEFF}'
  }

  predicate IsTrimmed(s: string) {
    s == [] || (!IsJsSpace(s[0]) && !IsJsSpace(s[|s| - 1]))
  }

  predicate AllSpace(s: string) {
    forall k :: 0 <= k < |s| ==> IsJsSpace(s[k])
  }

  /** An optional string JavaScript treats as true (a header, an environment
      variable, a JSON field): present and not empty. */
  predicate Present(h: Option<string>) {
    h.Some? && h.value != []
  }

  /** `h || fallback` on an optional string. */
  function Or(h: Option<string>, fallback: string): (r: string)
    ensures Present(h) ==> r == h.value
    ensures !Present(h) ==> r == fallback
  {
    if Present(h) then h.value else fallback
  }

  /** `trimStart`: the suffix left once the leading spaces are gone. */
  function TrimStart(s: string): (r: string)
    ensures |r| <= |s| && r == s[|s| - |r|..]
    ensures r == [] || !IsJsSpace(r[0])
    ensures AllSpace(s[..|s| - |r|])
  {
    if s != [] && IsJsSpace(s[0]) then TrimStart(s[1..]) else s
  }

  /** `trimEnd`: the prefix left once the trailing spaces are gone. */
  function TrimEnd(s: string): (r: string)
    ensures |r| <= |s| && r == s[..|r|]
    ensures r == [] || !IsJsSpace(r[|r| - 1])
    ensures AllSpace(s[|r|..])
  {
    if s != [] && IsJsSpace(s[|s| - 1]) then
      var r := TrimEnd(s[..|s| - 1]);
      assert s[|r|..] == s[..|s| - 1][|r|..] + [s[|s| - 1]];
      r
    else s
  }

  /** `trim`: `s` without its leading and trailing spaces. */
  function Trim(s: string): (r: string)
    ensures IsTrimmed(r)
    ensures |r| <= |s|
  {
    TrimEnd(TrimStart(s))
  }

  lemma TrimOfTrimmed(s: string)
    requires IsTrimmed(s)
    ensures Trim(s) == s
  {
  }

  /** Trimming only removes characters. */
  lemma TrimChars(s: string, c: char)
    requires c in Trim(s)
    ensures c in s
  {
    var t := TrimStart(s);
    var r := TrimEnd(t);
    assert r == Trim(s);
    var k :| 0 <= k < |r| && r[k] == c;
    assert t[k] == c;
    assert s[|s| - |t| + k] == t[k];
  }

  /** Trimming twice is trimming once. */
  lemma TrimIdempotent(s: string)
    ensures Trim(Trim(s)) == Trim(s)
  {
    TrimOfTrimmed(Trim(s));
  }

  /** `toLowerCase` on one code unit. Besides `A`-`Z`, the only code unit
      JavaScript lower-cases to an ASCII letter is KELVIN SIGN (U+212A), to `k`. */
  function LowerChar(c: char): char {
    if 'A' <= c <= 'Z' then (c as int + 32) as char
    else if c == '\U{212A}' then 'k'
    else c
  }

  function Lower(s: string): string {
    if s == [] then [] else [LowerChar(s[0])] + Lower(s[1..])
  }

  lemma {:induction false} LowerLength(s: string)
    ensures |Lower(s)| == |s|
  {
    if s != [] { LowerLength(s[1..]); }
  }

  lemma {:induction false} LowerAppend(a: string, b: string)
    ensures Lower(a + b) == Lower(a) + Lower(b)
  {
    if a == [] {
      assert a + b == b;
    } else {
      assert (a + b)[0] == a[0];
      assert (a + b)[1..] == a[1..] + b;
      LowerAppend(a[1..], b);
    }
  }

  /** Lower-casing is idempotent. */
  lemma {:induction false} LowerIdempotent(s: string)
    ensures Lower(Lower(s)) == Lower(s)
  {
    if s != [] { LowerIdempotent(s[1..]); }
  }

  /** `s.split(sep)` for a one-character separator: the pieces between the
      separators, from left to right; the empty string splits into `[""]`. */
  function Split(s: string, sep: char): (r: seq<string>)
    ensures |r| >= 1
    ensures forall k :: 0 <= k < |r| ==> sep !in r[k]
    ensures |r| == 1 <==> sep !in s
  {
    if s == [] then [[]]
    else if s[0] == sep then [[]] + Split(s[1..], sep)
    else
      var rest := Split(s[1..], sep);
      [[s[0]] + rest[0]] + rest[1..]
  }

  /** `parts.join(sep)`. */
  function Join(parts: seq<string>, sep: char): string {
    if parts == [] then []
    else if |parts| == 1 then parts[0]
    else parts[0] + [sep] + Join(parts[1..], sep)
  }

  lemma {:induction false} SplitFree(a: string, sep: char)
    requires sep !in a
    ensures Split(a, sep) == [a]
  {
    if a != [] {
      SplitFree(a[1..], sep);
      assert a[0] != sep;
      assert [a[0]] + a[1..] == a;
    }
  }

  /** Splitting at the first separator: the text before it is the first
      piece, the rest splits on its own. */
  lemma {:induction false} SplitAtFirst(a: string, rest: string, sep: char)
    requires sep !in a
    ensures Split(a + [sep] + rest, sep) == [a] + Split(rest, sep)
  {
    if a == [] {
      assert a + [sep] + rest == [sep] + rest;
    } else {
      var x := a + [sep] + rest;
      assert x[0] == a[0] && a[0] != sep;
      assert x[1..] == a[1..] + [sep] + rest;
      SplitAtFirst(a[1..], rest, sep);
      assert [a[0]] + a[1..] == a;
    }
  }

  /** Splitting after one more separator: a new empty piece starts. */
  lemma {:induction false} SplitSnocSep(s: string, sep: char)
    ensures Split(s + [sep], sep) == Split(s, sep) + [[]]
  {
    if s == [] {
      assert Split([sep], sep) == [[]] + Split([], sep);
    } else {
      var x := s + [sep];
      assert x[0] == s[0] && x[1..] == s[1..] + [sep];
      SplitSnocSep(s[1..], sep);
      var q := Split(s[1..], sep);
      if s[0] != sep {
        calc {
          Split(x, sep);
          [[s[0]] + (q + [[]])[0]] + (q + [[]])[1..];
          { assert (q + [[]])[1..] == q[1..] + [[]]; }
          ([[s[0]] + q[0]] + q[1..]) + [[]];
        }
      }
    }
  }

  lemma SplitOne(c: char, sep: char)
    requires c != sep
    ensures Split([c], sep) == [[c]]
  {
    var one: string := [c];
    assert one[1..] == [];
    assert Split([], sep) == [[]];
    assert [c] + [] == [c];
  }

  /** The pieces with `c` added to the last one. */
  function AddToLast(p: seq<string>, c: char): seq<string>
    requires |p| >= 1
  {
    p[..|p| - 1] + [p[|p| - 1] + [c]]
  }

  lemma AddToLastCons(x: string, q: seq<string>, c: char)
    requires |q| >= 1
    ensures AddToLast([x] + q, c) == [x] + AddToLast(q, c)
  {
    assert ([x] + q)[..|q|] == [x] + q[..|q| - 1];
  }

  lemma SplitCons(c: char, s: string, sep: char)
    requires c != sep
    ensures var q := Split(s, sep);
      Split([c] + s, sep) == [[c] + q[0]] + q[1..]
  {
    var x := [c] + s;
    assert x[0] == c && x[1..] == s;
  }

  lemma SplitConsSep(s: string, sep: char)
    ensures Split([sep] + s, sep) == [[]] + Split(s, sep)
  {
    var x := [sep] + s;
    assert x[0] == sep && x[1..] == s;
  }

  /** The step of `SplitSnocOther` past a leading character that is not the
      separator. */
  lemma SplitSnocOtherCons(x: char, rest: string, c: char, sep: char)
    requires x != sep && c != sep
    requires Split(rest + [c], sep) == AddToLast(Split(rest, sep), c)
    ensures Split([x] + rest + [c], sep) == AddToLast(Split([x] + rest, sep), c)
  {
    var q := Split(rest, sep);
    assert [x] + rest + [c] == [x] + (rest + [c]);
    SplitCons(x, rest + [c], sep);
    SplitCons(x, rest, sep);
    var q' := AddToLast(q, c);
    if |q| == 1 {
      assert q' == [q[0] + [c]];
      assert [x] + (q[0] + [c]) == ([x] + q[0]) + [c];
    } else {
      assert q == [q[0]] + q[1..];
      AddToLastCons(q[0], q[1..], c);
      AddToLastCons([x] + q[0], q[1..], c);
    }
  }

  /** Splitting after one more non-separator: it joins the last piece. */
  lemma {:induction false} SplitSnocOther(s: string, c: char, sep: char)
    requires c != sep
    ensures var p := Split(s, sep);
      Split(s + [c], sep) == p[..|p| - 1] + [p[|p| - 1] + [c]]
  {
    if s == [] {
      assert s + [c] == [c];
      SplitOne(c, sep);
      assert Split(s, sep) == [[]];
    } else {
      var rest := s[1..];
      assert s == [s[0]] + rest;
      SplitSnocOther(rest, c, sep);
      assert Split(rest + [c], sep) == AddToLast(Split(rest, sep), c);
      if s[0] == sep {
        assert s + [c] == [sep] + (rest + [c]);
        SplitConsSep(rest + [c], sep);
        SplitConsSep(rest, sep);
        AddToLastCons([], Split(rest, sep), c);
      } else {
        SplitSnocOtherCons(s[0], rest, c, sep);
      }
      assert Split(s + [c], sep) == AddToLast(Split(s, sep), c);
    }
  }

  /** Splitting after one more character: either a new empty piece starts, or
      the character joins the last piece. */
  lemma SplitSnoc(s: string, c: char, sep: char)
    ensures var p := Split(s, sep);
      Split(s + [c], sep) == if c == sep then p + [[]] else p[..|p| - 1] + [p[|p| - 1] + [c]]
  {
    if c == sep { SplitSnocSep(s, sep); } else { SplitSnocOther(s, c, sep); }
  }

  /** Joining the pieces of a split gives the string back. */
  lemma {:induction false} JoinSplit(s: string, sep: char)
    ensures Join(Split(s, sep), sep) == s
  {
    if s != [] {
      JoinSplit(s[1..], sep);
      var rest := Split(s[1..], sep);
      if s[0] != sep && |rest| > 1 {
        assert Split(s, sep)[1..] == rest[1..];
        assert rest == [rest[0]] + rest[1..];
      }
    }
  }

  /** Splitting a join of separator-free pieces gives the pieces back. */
  lemma {:induction false} SplitJoin(parts: seq<string>, sep: char)
    requires |parts| >= 1
    requires forall k :: 0 <= k < |parts| ==> sep !in parts[k]
    ensures Split(Join(parts, sep), sep) == parts
  {
    if |parts| == 1 {
      SplitFree(parts[0], sep);
    } else {
      SplitJoin(parts[1..], sep);
      SplitAtFirst(parts[0], Join(parts[1..], sep), sep);
    }
  }

  /** The value of `c` as a digit (`0`-`9`, then `a`-`z` or `A`-`Z` from 10),
      or 36 when it is no digit in any radix. */
  function DigitValue(c: char): int {
    if '0' <= c <= '9' then c as int - '0' as int
    else if 'a' <= c <= 'z' then c as int - 'a' as int + 10
    else if 'A' <= c <= 'Z' then c as int - 'A' as int + 10
    else 36
  }

  /** The longest prefix of `s` made of digits of `radix`. */
  function DigitPrefix(s: string, radix: int): (r: string)
    ensures |r| <= |s| && r == s[..|r|]
    ensures forall k :: 0 <= k < |r| ==> DigitValue(r[k]) < radix
    ensures |r| < |s| ==> DigitValue(s[|r|]) >= radix
  {
    if s != [] && DigitValue(s[0]) < radix then [s[0]] + DigitPrefix(s[1..], radix) else []
  }

  /** The positional value of a digit string, most significant digit first. */
  function DigitsValue(d: string, radix: int): int {
    if d == [] then 0 else DigitsValue(d[..|d| - 1], radix) * radix + DigitValue(d[|d| - 1])
  }

  /** The digits after the sign: hexadecimal after `0x` or `0X`, decimal
      otherwise; `None` when there is no digit. */
  function ParseMagnitude(u: string): Option<int> {
    if |u| >= 2 && u[0] == '0' && (u[1] == 'x' || u[1] == 'X') then
      var digits := DigitPrefix(u[2..], 16);
      if digits == [] then None else Some(DigitsValue(digits, 16))
    else
      var digits := DigitPrefix(u, 10);
      if digits == [] then None else Some(DigitsValue(digits, 10))
  }

  /** `parseInt(s)` with no radix: skip leading spaces, take an optional sign,
      read hexadecimal after `0x`/`0X` and decimal otherwise, stop at the first
      non-digit; `None` is `NaN` (no digit at all). */
  function ParseInt(s: string): Option<int> {
    var t := TrimStart(s);
    if t != [] && (t[0] == '-' || t[0] == '+') then
      match ParseMagnitude(t[1..])
      case None => None
      case Some(v) => Some(if t[0] == '-' then -v else v)
    else ParseMagnitude(t)
  }

  function DecimalDigit(d: int): char
    requires 0 <= d < 10
  {
    ('0' as int + d) as char
  }

  /** `n.toString()` for a natural number: its decimal digits, no leading zero. */
  function Decimal(n: nat): (r: string)
    ensures |r| >= 1
    ensures forall k :: 0 <= k < |r| ==> '0' <= r[k] <= '9'
  {
    if n < 10 then [DecimalDigit(n)] else Decimal(n / 10) + [DecimalDigit(n % 10)]
  }

  lemma {:induction false} DecimalLeading(n: nat)
    ensures n >= 1 ==> Decimal(n)[0] != '0'
  {
    if n >= 10 { DecimalLeading(n / 10); }
  }

  lemma {:induction false} DecimalValue(n: nat)
    ensures DigitsValue(Decimal(n), 10) == n
  {
    if n >= 10 {
      DecimalValue(n / 10);
      var d := Decimal(n);
      assert d[..|d| - 1] == Decimal(n / 10);
    }
  }

  lemma {:induction false} DigitPrefixOfDigits(s: string, radix: int)
    requires forall k :: 0 <= k < |s| ==> DigitValue(s[k]) < radix
    ensures DigitPrefix(s, radix) == s
  {
    if s != [] { DigitPrefixOfDigits(s[1..], radix); }
  }

  lemma ParseMagnitudeDigits(d: string)
    requires d != [] && (d[0] != '0' || |d| == 1)
    requires forall k :: 0 <= k < |d| ==> '0' <= d[k] <= '9'
    ensures ParseMagnitude(d) == Some(DigitsValue(d, 10))
  {
    DigitPrefixOfDigits(d, 10);
  }

  lemma TrimStartNoSpace(s: string)
    requires s != [] && !IsJsSpace(s[0])
    ensures TrimStart(s) == s
  {
  }

  lemma ParseIntDigits(d: string)
    requires d != [] && (d[0] != '0' || |d| == 1)
    requires forall k :: 0 <= k < |d| ==> '0' <= d[k] <= '9'
    ensures ParseInt(d) == Some(DigitsValue(d, 10))
  {
    ParseMagnitudeDigits(d);
    TrimStartNoSpace(d);
  }

  /** A leading minus sign negates what follows it. */
  lemma ParseIntMinus(u: string, v: int)
    requires ParseMagnitude(u) == Some(v)
    ensures ParseInt(['-'] + u) == Some(-v)
  {
    var m := ['-'] + u;
    assert m[0] == '-';
    TrimStartNoSpace(m);
    assert m[1..] == u;
  }

  /** `parseInt` reads back what `toString` writes, with or without a minus sign. */
  lemma ParseIntDecimal(n: nat)
    ensures ParseInt(Decimal(n)) == Some(n)
    ensures ParseInt(['-'] + Decimal(n)) == Some(-(n as int))
  {
    DecimalLeading(n);
    DecimalValue(n);
    ParseIntDigits(Decimal(n));
    ParseMagnitudeDigits(Decimal(n));
    ParseIntMinus(Decimal(n), n);
  }

  /** A string that starts with neither a space, a sign nor a digit is `NaN`. */
  lemma ParseIntNonNumeric(s: string)
    requires s != [] && !IsJsSpace(s[0]) && s[0] != '-' && s[0] != '+' && DigitValue(s[0]) >= 10
    ensures ParseInt(s) == None
  {
    TrimStartNoSpace(s);
  }

  /** `pat` occurs in `s` starting at index `i`. */
  predicate OccursAt(s: string, pat: string, i: int) {
    0 <= i && i + |pat| <= |s| && s[i..i + |pat|] == pat
  }

  /** `s.replace(pat, rep)` with a string pattern: only the first occurrence
      of `pat`, wherever it is, is replaced. */
  function ReplaceFirst(s: string, pat: string, rep: string): string
    requires pat != []
  {
    if |s| < |pat| then s
    else if s[..|pat|] == pat then rep + s[|pat|..]
    else [s[0]] + ReplaceFirst(s[1..], pat, rep)
  }

  /** The first occurrence, at `i`, is the one replaced. */
  lemma {:induction false} ReplaceFirstAt(s: string, pat: string, rep: string, i: int)
    requires pat != [] && OccursAt(s, pat, i)
    requires forall j :: 0 <= j < i ==> !OccursAt(s, pat, j)
    ensures ReplaceFirst(s, pat, rep) == s[..i] + rep + s[i + |pat|..]
  {
    if i > 0 {
      assert !OccursAt(s, pat, 0);
      var t := s[1..];
      assert t[i - 1..i - 1 + |pat|] == s[i..i + |pat|];
      forall j | 0 <= j < i - 1
        ensures !OccursAt(t, pat, j)
      {
        assert !OccursAt(s, pat, j + 1);
        assert j + 1 + |pat| <= |s| ==> t[j..j + |pat|] == s[j + 1..j + 1 + |pat|];
      }
      ReplaceFirstAt(t, pat, rep, i - 1);
      assert [s[0]] + (t[..i - 1] + rep + t[i - 1 + |pat|..]) == s[..i] + rep + s[i + |pat|..];
    }
  }

  /** `a ++ pat ++ t` with no earlier occurrence of `pat` becomes `a ++ rep ++ t`. */
  lemma ReplaceFirstBetween(a: string, pat: string, t: string, rep: string)
    requires pat != []
    requires forall j :: 0 <= j < |a| ==> !OccursAt(a + pat + t, pat, j)
    ensures ReplaceFirst(a + pat + t, pat, rep) == a + rep + t
  {
    var h := a + pat + t;
    assert h[|a|..|a| + |pat|] == pat;
    ReplaceFirstAt(h, pat, rep, |a|);
    assert h[..|a|] == a;
    assert h[|a| + |pat|..] == t;
  }

  /** Without an occurrence nothing is replaced. */
  lemma {:induction false} ReplaceFirstAbsent(s: string, pat: string, rep: string)
    requires pat != []
    requires forall j :: 0 <= j ==> !OccursAt(s, pat, j)
    ensures ReplaceFirst(s, pat, rep) == s
  {
    if |s| >= |pat| {
      assert !OccursAt(s, pat, 0);
      var t := s[1..];
      forall j | 0 <= j
        ensures !OccursAt(t, pat, j)
      {
        assert !OccursAt(s, pat, j + 1);
        assert j + 1 + |pat| <= |s| ==> t[j..j + |pat|] == s[j + 1..j + 1 + |pat|];
      }
      ReplaceFirstAbsent(t, pat, rep);
      assert [s[0]] + t == s;
    }
  }
}

/** Where the characters `trim` keeps come from. */
module TrimSlices {
  import opened JsText

  /** `r` is the slice of `s` that starts at `i`, and everything before and
      after that slice is space. */
  predicate SpacesAround(s: string, i: int, r: string) {
    0 <= i && i + |r| <= |s| && r == s[i..i + |r|]
    && AllSpace(s[..i]) && AllSpace(s[i + |r|..])
  }

  lemma TrimStartFacts(s: string, t: string)
    requires t == TrimStart(s)
    ensures |t| <= |s| && t == s[|s| - |t|..] && AllSpace(s[..|s| - |t|])
  {
  }

  lemma TrimEndFacts(t: string, r: string)
    requires r == TrimEnd(t)
    ensures |r| <= |t| && r == t[..|r|] && AllSpace(t[|r|..])
  {
  }

  /** If `t` is `s` less some leading spaces and `r` is `t` less some
      trailing spaces, then `r` is the slice of `s` between those spaces. */
  lemma SpacesAroundSlice(s: string, t: string, r: string)
    requires |t| <= |s| && t == s[|s| - |t|..] && AllSpace(s[..|s| - |t|])
    requires |r| <= |t| && r == t[..|r|] && AllSpace(t[|r|..])
    ensures SpacesAround(s, |s| - |t|, r)
  {
    assert t[|r|..] == s[|s| - |t| + |r|..];
  }

  /** `trim` removes only the surrounding spaces: the result is the slice of
      `s` that starts where the leading spaces end, and everything before
      and after that slice is space. */
  lemma TrimRemovesOnlySpaces(s: string)
    ensures SpacesAround(s, |s| - |TrimStart(s)|, Trim(s))
  {
    var t := TrimStart(s);
    var r := Trim(s);
    TrimStartFacts(s, t);
    TrimEndFacts(t, r);
    SpacesAroundSlice(s, t, r);
  }
}
