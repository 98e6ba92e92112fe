/** The string operations the storefront leans on: `trim`, `toLowerCase`, `includes`,
    `split('\n')` / `join('\n')`, the decimal rendering of timestamps used in ids, and the
    category slug `toLowerCase().replace(/\s+/g, '-')`. Strings are `seq<char>`. */
module Text {

  /** The characters JavaScript's `trim` removes and the regular-expression class `\s`
      matches: the WhiteSpace and LineTerminator code points of ECMA-262. */
  predicate IsSpace(c: char) {
    || c == ' ' || c == '\t' || c == '\n' || c == '\r' || c == '\U{B}' || c == '\U{C}'
    || c == '\U{A0}' || c == '\U{1680}' || ('\U{2000}' <= c <= '\U{200A}')
    || c == '\U{2028}' || c == '\U{2029}' || c == '\U{202F}' || c == '\U{205F}'
    || c == '\U{3000}' || c == '\U{FEFF}'
  }

  predicate NoSpace(s: string) {
    forall i :: 0 <= i < |s| ==> !IsSpace(s[i])
  }

  predicate AllSpace(s: string) {
    forall i :: 0 <= i < |s| ==> IsSpace(s[i])
  }

  // ---------------------------------------------------------------- trim

  /** `s` without its leading whitespace. */
  function TrimStart(s: string): (r: string)
    ensures |r| <= |s| && r == s[|s| - |r|..]
    ensures AllSpace(s[..|s| - |r|])
    ensures |r| > 0 ==> !IsSpace(r[0])
    decreases |s|
  {
    if |s| > 0 && IsSpace(s[0]) then TrimStart(s[1..]) else s
  }

  /** `s` without its trailing whitespace. */
  function TrimEnd(s: string): (r: string)
    ensures |r| <= |s| && r == s[..|r|]
    ensures AllSpace(s[|r|..])
    ensures |r| > 0 ==> !IsSpace(r[|r| - 1])
    decreases |s|
  {
    if |s| > 0 && IsSpace(s[|s| - 1]) then TrimEnd(s[..|s| - 1]) else s
  }

  /** JavaScript's `String.prototype.trim`. */
  function Trim(s: string): (r: string)
    ensures |r| <= |s|
    ensures |r| > 0 ==> !IsSpace(r[0]) && !IsSpace(r[|r| - 1])
    ensures r == "" <==> AllSpace(s)
  {
    var t := TrimStart(s);
    var r := TrimEnd(t);
    assert r == "" ==> AllSpace(s) by {
      if r == "" {
        assert s == s[..|s| - |t|] + t;
      }
    }
    r
  }

  /** A string is blank when it trims to the empty string, the test `!s.trim()` and
      `s.trim() === ''` make. */
  predicate IsBlank(s: string) {
    Trim(s) == ""
  }

  lemma TrimIdempotent(s: string)
    ensures Trim(Trim(s)) == Trim(s)
  {
    var r := Trim(s);
    if r != "" {
      assert TrimStart(r) == r;
      assert TrimEnd(r) == r;
    }
  }

  /** Trimming only removes characters. */
  lemma TrimKeepsChars(s: string)
    ensures forall c :: c in Trim(s) ==> c in s
  {
    var t := TrimStart(s);
    var r := TrimEnd(t);
    assert Trim(s) == r;
    forall c | c in r
      ensures c in s
    {
      var i :| 0 <= i < |r| && r[i] == c;
      assert r[i] == t[i];
      assert t[i] == s[|s| - |t| + i];
    }
  }

  // ---------------------------------------------------------------- case

  predicate IsUpper(c: char) {
    'A' <= c <= 'Z'
  }

  function LowerChar(c: char): char {
    if IsUpper(c) then (c as int + 32) as char else c
  }

  /** `toLowerCase`, on the ASCII letters. */
  function ToLower(s: string): (r: string)
    ensures |r| == |s|
  {
    seq(|s|, i requires 0 <= i < |s| => LowerChar(s[i]))
  }

  predicate NoUpper(s: string) {
    forall i :: 0 <= i < |s| ==> !IsUpper(s[i])
  }

  lemma ToLowerOfLower(s: string)
    requires NoUpper(s)
    ensures ToLower(s) == s
  {
  }

  // ---------------------------------------------------------------- search

  /** `s.includes(t)`: `t` occurs in `s` at some position. The empty string occurs
      everywhere. */
  predicate Contains(s: string, t: string) {
    exists i :: 0 <= i <= |s| - |t| && OccursAt(s, t, i)
  }

  predicate OccursAt(s: string, t: string, i: int)
    requires 0 <= i <= |s| - |t|
  {
    s[i..i + |t|] == t
  }

  lemma ContainsEmpty(s: string)
    ensures Contains(s, "")
  {
    assert OccursAt(s, "", 0);
  }

  // ---------------------------------------------------------------- split and join

  /** `s.split(sep)` for a one-character separator: the pieces between separators, in
      order, always at least one (the empty string splits into `[""]`). */
  function Split(s: string, sep: char): (parts: seq<string>)
    ensures |parts| >= 1
    ensures forall k :: 0 <= k < |parts| ==> sep !in parts[k]
    decreases |s|
  {
    if |s| == 0 then [""]
    else
      var rest := Split(s[1..], sep);
      if s[0] == sep then [""] + rest
      else [[s[0]] + rest[0]] + rest[1..]
  }

  /** `parts.join(sep)`. */
  function Join(parts: seq<string>, sep: char): string
  {
    if |parts| == 0 then ""
    else if |parts| == 1 then parts[0]
    else parts[0] + [sep] + Join(parts[1..], sep)
  }

  /** Joining the pieces of a split gives back the string. */
  lemma {:induction false} JoinSplit(s: string, sep: char)
    ensures Join(Split(s, sep), sep) == s
    decreases |s|
  {
    if |s| > 0 {
      var rest := Split(s[1..], sep);
      JoinSplit(s[1..], sep);
      if s[0] == sep {
        assert Split(s, sep) == [""] + rest;
        assert ([""] + rest)[1..] == rest;
      } else if |rest| == 1 {
        assert Split(s, sep) == [[s[0]] + rest[0]];
      } else {
        var parts := Split(s, sep);
        assert parts == [[s[0]] + rest[0]] + rest[1..];
        assert parts[1..] == rest[1..];
        assert Join(rest, sep) == rest[0] + [sep] + Join(rest[1..], sep);
      }
    }
  }

  lemma {:induction false} SplitWithoutSeparator(p: string, sep: char)
    requires sep !in p
    ensures Split(p, sep) == [p]
    decreases |p|
  {
    if |p| > 0 {
      SplitWithoutSeparator(p[1..], sep);
      assert [p[0]] + p[1..] == p;
    }
  }

  lemma {:induction false} SplitAfterPiece(p: string, sep: char, rest: string)
    requires sep !in p
    ensures Split(p + [sep] + rest, sep) == [p] + Split(rest, sep)
    decreases |p|
  {
    var s := p + [sep] + rest;
    if |p| == 0 {
      assert s[1..] == rest;
    } else {
      assert s[1..] == p[1..] + [sep] + rest;
      SplitAfterPiece(p[1..], sep, rest);
      assert [p[0]] + p[1..] == p;
    }
  }

  /** Splitting a join gives back the pieces, provided there is at least one and none
      contains the separator. */
  lemma {:induction false} SplitJoin(parts: seq<string>, sep: char)
    requires |parts| >= 1
    requires forall k :: 0 <= k < |parts| ==> sep !in parts[k]
    ensures Split(Join(parts, sep), sep) == parts
    decreases |parts|
  {
    if |parts| == 1 {
      SplitWithoutSeparator(parts[0], sep);
    } else {
      SplitJoin(parts[1..], sep);
      SplitAfterPiece(parts[0], sep, Join(parts[1..], sep));
      assert [parts[0]] + parts[1..] == parts;
    }
  }

  // ---------------------------------------------------------------- decimal numerals

  function DigitChar(d: nat): char
    requires d < 10
  {
    ('0' as int + d) as char
  }

  predicate AllDigits(s: string) {
    forall i :: 0 <= i < |s| ==> '0' <= s[i] <= '9'
  }

  /** The decimal numeral of `n`, as JavaScript's number-to-string conversion writes a
      non-negative integer (`'ORD' + Date.now()`). */
  function Decimal(n: nat): (r: string)
    ensures |r| >= 1 && AllDigits(r)
  {
    if n < 10 then [DigitChar(n)] else Decimal(n / 10) + [DigitChar(n % 10)]
  }

  /** Reads a numeral back. */
  function ParseDecimal(s: string): nat
    requires AllDigits(s)
  {
    if |s| == 0 then 0
    else ParseDecimal(s[..|s| - 1]) * 10 + (s[|s| - 1] as int - '0' as int)
  }

  lemma {:induction false} ParseDecimalOfDecimal(n: nat)
    ensures ParseDecimal(Decimal(n)) == n
  {
    if n >= 10 {
      var s := Decimal(n);
      assert s[..|s| - 1] == Decimal(n / 10);
      ParseDecimalOfDecimal(n / 10);
    }
  }

  /** Different timestamps give different numerals. */
  lemma DecimalInjective(a: nat, b: nat)
    ensures Decimal(a) == Decimal(b) <==> a == b
  {
    ParseDecimalOfDecimal(a);
    ParseDecimalOfDecimal(b);
  }

  // ---------------------------------------------------------------- slug

  /** A non-space, non-capital character in front keeps a string free of both. */
  lemma ConsKeepsPlain(c: char, rest: string)
    requires !IsSpace(c) && NoSpace(rest)
    ensures NoSpace([c] + rest)
    ensures !IsUpper(c) && NoUpper(rest) ==> NoUpper([c] + rest)
  {
    assert forall i :: 1 <= i <= |rest| ==> ([c] + rest)[i] == rest[i - 1];
  }

  /** A suffix of a string without capitals has none either. */
  lemma SuffixKeepsNoUpper(s: string, t: string)
    requires |t| <= |s| && t == s[|s| - |t|..]
    ensures NoUpper(s) ==> NoUpper(t)
  {
    if NoUpper(s) {
      forall i | 0 <= i < |t|
        ensures !IsUpper(t[i])
      {
        assert t[i] == s[|s| - |t| + i];
      }
    }
  }

  /** `s.replace(/\s+/g, '-')`: each maximal run of whitespace becomes one `-`. */
  function DashSpaces(s: string): (r: string)
    ensures NoSpace(r)
    ensures NoUpper(s) ==> NoUpper(r)
    decreases |s|
  {
    if |s| == 0 then ""
    else if IsSpace(s[0]) then
      var t := TrimStart(s[1..]);
      assert NoUpper(s) ==> NoUpper(s[1..]);
      SuffixKeepsNoUpper(s[1..], t);
      var rest := DashSpaces(t);
      ConsKeepsPlain('-', rest);
      "-" + rest
    else
      var rest := DashSpaces(s[1..]);
      assert NoUpper(s) ==> NoUpper(s[1..]);
      ConsKeepsPlain(s[0], rest);
      [s[0]] + rest
  }

  /** The dropdown value of a category name: `name.toLowerCase().replace(/\s+/g, '-')`. */
  function Slug(name: string): (r: string)
    ensures NoSpace(r) && NoUpper(r)
  {
    DashSpaces(ToLower(name))
  }

  lemma {:induction false} DashSpacesOfNoSpace(s: string)
    requires NoSpace(s)
    ensures DashSpaces(s) == s
    decreases |s|
  {
    if |s| > 0 {
      DashSpacesOfNoSpace(s[1..]);
      assert [s[0]] + s[1..] == s;
    }
  }

  /** A slug is its own slug. */
  lemma SlugIdempotent(name: string)
    ensures Slug(Slug(name)) == Slug(name)
  {
    var s := Slug(name);
    ToLowerOfLower(s);
    DashSpacesOfNoSpace(s);
  }

  /** Slugs leave whitespace-free lower-case names alone. */
  lemma SlugOfPlainName(name: string)
    requires NoSpace(name) && NoUpper(name)
    ensures Slug(name) == name
  {
    ToLowerOfLower(name);
    DashSpacesOfNoSpace(name);
  }
}
