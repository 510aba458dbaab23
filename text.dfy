/** The handful of Python string operations the core relies on, written out
    over `seq<char>`: `strip`, ASCII `lower`, `in`, `find`, `startswith`,
    `split("\n")`, `splitlines`, `join`, slicing `[:n]` and the decimal
    rendering of an integer. */
module Text {

  // ---------------------------------------------------------------------
  // Whitespace and `str.strip`
  // ---------------------------------------------------------------------

  /** The ASCII characters Python's `str.isspace` accepts: space, the
      controls \t \n \v \f \r, and the separators \x1c to \x1f. */
  predicate IsSpace(c: char) {
    c == ' ' || ('\t' <= c <= '\r') || ('\U{1C}' <= c <= '\U{1F}')
  }

  /** Number of whitespace characters at the front of `s`. */
  function LeadingSpaces(s: string): (k: nat)
    ensures k <= |s|
    ensures forall i | 0 <= i < k :: IsSpace(s[i])
    ensures k < |s| ==> !IsSpace(s[k])
  {
    if s != [] && IsSpace(s[0]) then 1 + LeadingSpaces(s[1..]) else 0
  }

  /** `s` without its trailing whitespace (Python's `rstrip()`). */
  function TrimEnd(s: string): (r: string)
    ensures |r| <= |s| && r == s[..|r|]
    ensures r != [] ==> !IsSpace(r[|r| - 1])
    ensures forall i | |r| <= i < |s| :: IsSpace(s[i])
  {
    if s != [] && IsSpace(s[|s| - 1]) then TrimEnd(s[..|s| - 1]) else s
  }

  /** Python's `str.strip()` over ASCII whitespace: the slice of `s` that
      starts at its first and ends at its last non-space character. */
  function Strip(s: string): (r: string)
    ensures LeadingSpaces(s) + |r| <= |s|
    ensures r == s[LeadingSpaces(s)..LeadingSpaces(s) + |r|]
    ensures forall i | LeadingSpaces(s) + |r| <= i < |s| :: IsSpace(s[i])
    ensures r != [] ==> !IsSpace(r[0]) && !IsSpace(r[|r| - 1])
    ensures r == [] <==> forall i | 0 <= i < |s| :: IsSpace(s[i])
  {
    var k := LeadingSpaces(s);
    TrimEnd(s[k..])
  }

  /** Stripping twice is stripping once. */
  lemma StripIdempotent(s: string)
    ensures Strip(Strip(s)) == Strip(s)
  {
    var r := Strip(s);
    if r != [] {
      assert LeadingSpaces(r) == 0;
      assert TrimEnd(r) == r;
    }
  }

  /** Every character of `Strip(s)` comes from `s`. */
  lemma StripChars(s: string, c: char)
    requires c in Strip(s)
    ensures c in s
  {
    var r := Strip(s);
    var k := LeadingSpaces(s);
    var j :| 0 <= j < |r| && r[j] == c;
    assert s[k + j] == c;
  }

  // ---------------------------------------------------------------------
  // ASCII case folding
  // ---------------------------------------------------------------------

  function LowerChar(c: char): char {
    if 'A' <= c <= 'Z' then (c as int - 'A' as int + 'a' as int) as char else c
  }

  /** Python's `str.lower()` restricted to ASCII letters. */
  function Lower(s: string): (r: string)
    ensures |r| == |s|
    ensures forall i | 0 <= i < |s| :: r[i] == LowerChar(s[i])
  {
    seq(|s|, i requires 0 <= i < |s| => LowerChar(s[i]))
  }

  /** Lower-casing changes exactly the upper-case ASCII letters, each into
      its lower-case letter, and doing it twice is doing it once. */
  lemma LowerLetters(s: string)
    ensures forall i | 0 <= i < |s| ::
      if 'A' <= s[i] <= 'Z' then 'a' <= Lower(s)[i] <= 'z' && Lower(s)[i] as int == s[i] as int + 32
      else Lower(s)[i] == s[i]
    ensures Lower(Lower(s)) == Lower(s)
  {
  }

  // ---------------------------------------------------------------------
  // Substrings: `in`, `find`, `startswith`, `endswith`
  // ---------------------------------------------------------------------

  predicate OccursAt(s: string, k: string, i: int) {
    0 <= i && i + |k| <= |s| && s[i..i + |k|] == k
  }

  /** Python's `k in s` for two strings. */
  predicate Contains(s: string, k: string) {
    exists i | 0 <= i <= |s| - |k| :: OccursAt(s, k, i)
  }

  /** A string occurs in any string built around it. */
  lemma ContainsMiddle(a: string, k: string, b: string)
    ensures Contains(a + k + b, k)
  {
    assert OccursAt(a + k + b, k, |a|);
  }

  /** A string occurs at the end of any string ending with it. */
  lemma ContainsEnd(a: string, k: string)
    ensures Contains(a + k, k)
  {
    assert OccursAt(a + k, k, |a|);
  }

  /** Text put behind keeps an occurrence. */
  lemma ContainsAppend(s: string, t: string, k: string)
    requires Contains(s, k)
    ensures Contains(s + t, k)
  {
    var i :| 0 <= i <= |s| - |k| && OccursAt(s, k, i);
    assert (s + t)[i..i + |k|] == s[i..i + |k|];
    assert OccursAt(s + t, k, i);
  }

  /** A string put between two others sits right after the first. */
  lemma Embedded(h: string, c: string, f: string)
    ensures StartsWith(h + c + f, h) && OccursAt(h + c + f, c, |h|) && EndsWith(h + c + f, f)
  {
    var p := h + c + f;
    assert p[..|h|] == h;
    assert p[|h|..|h| + |c|] == c;
    assert p[|p| - |f|..] == f;
  }

  /** Text put behind keeps a prefix. */
  lemma StartsWithExtend(s: string, t: string, p: string)
    requires StartsWith(s, p)
    ensures StartsWith(s + t, p)
  {
    assert (s + t)[..|p|] == s[..|p|];
  }

  /** Text put in front keeps a suffix. */
  lemma EndsWithExtend(p: string, s: string, k: string)
    requires EndsWith(s, k)
    ensures EndsWith(p + s, k)
  {
    assert (p + s)[|p + s| - |k|..] == s[|s| - |k|..];
  }

  /** Two strings with the same surroundings are equal. */
  lemma ConcatCancel(h: string, a: string, b: string, f: string)
    requires h + a + f == h + b + f
    ensures a == b
  {
    assert |a| == |b|;
    assert a == (h + a + f)[|h|..|h| + |a|];
    assert b == (h + b + f)[|h|..|h| + |b|];
  }

  /** Text put in front keeps an occurrence. */
  lemma ContainsExtend(p: string, s: string, k: string)
    requires Contains(s, k)
    ensures Contains(p + s, k)
  {
    var i :| 0 <= i <= |s| - |k| && OccursAt(s, k, i);
    assert (p + s)[|p| + i..|p| + i + |k|] == s[i..i + |k|];
    assert OccursAt(p + s, k, |p| + i);
  }

  predicate StartsWith(s: string, p: string) {
    |p| <= |s| && s[..|p|] == p
  }

  predicate EndsWith(s: string, p: string) {
    |p| <= |s| && s[|s| - |p|..] == p
  }

  /** Python's `s.find(k, from)`: the lowest index at or after `from` where
      `k` occurs, or -1. */
  function Find(s: string, k: string, from: nat): (r: int)
    ensures r == -1 || (from <= r && OccursAt(s, k, r))
    ensures forall i | from <= i && (r == -1 || i < r) :: !OccursAt(s, k, i)
    decreases |s| - from
  {
    if from + |k| > |s| then -1
    else if s[from..from + |k|] == k then from
    else Find(s, k, from + 1)
  }

  /** The first occurrence at or after `from` is the one before which
      there is none. */
  lemma FindIs(s: string, k: string, from: nat, r: int)
    requires r == -1 || (from <= r && OccursAt(s, k, r))
    requires forall i | from <= i && (r == -1 || i < r) :: !OccursAt(s, k, i)
    ensures Find(s, k, from) == r
  {
    var f := Find(s, k, from);
    if f != -1 && r != -1 {
      assert !(f < r) && !(r < f);
    }
  }

  /** An occurrence behind a prefix is an occurrence in what follows it. */
  lemma OccursShift(p: string, c: string, k: string, i: nat)
    ensures OccursAt(p + c, k, |p| + i) == OccursAt(c, k, i)
  {
    if |p| + i + |k| <= |p + c| {
      assert (p + c)[|p| + i..|p| + i + |k|] == c[i..i + |k|];
    }
  }

  /** Searching behind a prefix is searching what follows it, shifted. */
  lemma FindShift(p: string, c: string, k: string, from: nat)
    ensures var f := Find(c, k, from);
      Find(p + c, k, |p| + from) == if f == -1 then -1 else |p| + f
  {
    var f := Find(c, k, from);
    forall i | |p| + from <= i && (f == -1 || i < |p| + f)
      ensures !OccursAt(p + c, k, i)
    {
      OccursShift(p, c, k, i - |p|);
    }
    if f != -1 {
      OccursShift(p, c, k, f);
    }
    FindIs(p + c, k, |p| + from, if f == -1 then -1 else |p| + f);
  }

  /** Positions without an occurrence can be skipped. */
  lemma FindSkip(s: string, k: string, from: nat, to: nat)
    requires from <= to
    requires forall i | from <= i < to :: !OccursAt(s, k, i)
    ensures Find(s, k, from) == Find(s, k, to)
  {
    FindIs(s, k, from, Find(s, k, to));
  }

  /** `find` from the start fails exactly when `in` does. */
  lemma FindContains(s: string, k: string)
    ensures Find(s, k, 0) >= 0 <==> Contains(s, k)
  {
    if Contains(s, k) {
      var i :| 0 <= i <= |s| - |k| && OccursAt(s, k, i);
    }
  }

  // ---------------------------------------------------------------------
  // Counting a character
  // ---------------------------------------------------------------------

  function Count(s: string, c: char): nat {
    if s == [] then 0 else (if s[0] == c then 1 else 0) + Count(s[1..], c)
  }

  lemma {:induction false} CountConcat(a: string, b: string, c: char)
    ensures Count(a + b, c) == Count(a, c) + Count(b, c)
  {
    if a == [] {
      assert a + b == b;
    } else {
      assert (a + b)[1..] == a[1..] + b;
      CountConcat(a[1..], b, c);
    }
  }

  /** Counting over five pieces put together. */
  lemma CountConcat5(a: string, m: string, b: string, n: string, d: string, c: char)
    ensures Count(a + m + b + n + d, c) == Count(a, c) + Count(m, c) + Count(b, c) + Count(n, c) + Count(d, c)
  {
    CountConcat(a, m, c);
    CountConcat(a + m, b, c);
    CountConcat(a + m + b, n, c);
    CountConcat(a + m + b + n, d, c);
  }

  // ---------------------------------------------------------------------
  // `sep.join(parts)`, `s.split("\n")`, `s.splitlines()`
  // ---------------------------------------------------------------------

  function Join(sep: string, parts: seq<string>): string {
    if |parts| == 0 then ""
    else if |parts| == 1 then parts[0]
    else parts[0] + sep + Join(sep, parts[1..])
  }

  /** Python's `s.split(sep)` for a one-character separator: never empty,
      and no piece holds the separator. */
  function Split(s: string, sep: char): (r: seq<string>)
    ensures |r| >= 1
    ensures forall i | 0 <= i < |r| :: sep !in r[i]
  {
    if s == [] then [[]]
    else
      var rest := Split(s[1..], sep);
      if s[0] == sep then [[]] + rest else [[s[0]] + rest[0]] + rest[1..]
  }

  /** Joining the pieces of a split with the separator gives the string back. */
  lemma {:induction false} JoinSplit(s: string, sep: char)
    ensures Join([sep], Split(s, sep)) == s
  {
    if s != [] {
      var rest := Split(s[1..], sep);
      JoinSplit(s[1..], sep);
      if s[0] != sep && |rest| > 1 {
        assert Join([sep], rest) == rest[0] + [sep] + Join([sep], rest[1..]);
      }
    }
  }

  lemma {:induction false} SplitPiece(a: string, sep: char)
    requires sep !in a
    ensures Split(a, sep) == [a]
  {
    if a != [] {
      SplitPiece(a[1..], sep);
      assert [a[0]] + a[1..] == a;
    }
  }

  lemma {:induction false} SplitCons(a: string, t: string, sep: char)
    requires sep !in a
    ensures Split(a + [sep] + t, sep) == [a] + Split(t, sep)
  {
    if a == [] {
      assert (a + [sep] + t)[1..] == t;
    } else {
      assert (a + [sep] + t)[1..] == a[1..] + [sep] + t;
      SplitCons(a[1..], t, sep);
      assert [a[0]] + a[1..] == a;
    }
  }

  /** Splitting a join of separator-free pieces gives the pieces back. */
  lemma {:induction false} SplitJoin(parts: seq<string>, sep: char)
    requires |parts| >= 1
    requires forall i | 0 <= i < |parts| :: sep !in parts[i]
    ensures Split(Join([sep], parts), sep) == parts
  {
    if |parts| == 1 {
      SplitPiece(parts[0], sep);
    } else {
      SplitJoin(parts[1..], sep);
      SplitCons(parts[0], Join([sep], parts[1..]), sep);
      assert [parts[0]] + parts[1..] == parts;
    }
  }

  /** Python's `s.splitlines()` with "\n" as the only line break: like
      `split("\n")`, except that the empty string has no lines and a final
      "\n" does not open an empty last line. */
  function SplitLines(s: string): (r: seq<string>)
    ensures forall i | 0 <= i < |r| :: '\n' !in r[i]
  {
    if s == [] then []
    else
      var parts := Split(s, '\n');
      if parts[|parts| - 1] == [] then parts[..|parts| - 1] else parts
  }

  /** The lines, joined back with "\n", give the text, less its final line break. */
  lemma SplitLinesJoin(s: string)
    ensures Join("\n", SplitLines(s)) + (if s != [] && s[|s| - 1] == '\n' then "\n" else "") == s
  {
    if s != [] {
      var parts := Split(s, '\n');
      JoinSplit(s, '\n');
      if parts[|parts| - 1] == [] {
        assert |parts| >= 2;
        JoinDropEmptyLast(parts, "\n");
        assert s[|s| - 1] == '\n';
      } else {
        JoinLastChar(parts, "\n");
      }
    }
  }

  lemma {:induction false} JoinDropEmptyLast(parts: seq<string>, sep: string)
    requires |parts| >= 2 && parts[|parts| - 1] == []
    ensures Join(sep, parts) == Join(sep, parts[..|parts| - 1]) + sep
  {
    if |parts| > 2 {
      JoinDropEmptyLast(parts[1..], sep);
      assert parts[1..][..|parts| - 2] == parts[..|parts| - 1][1..];
    }
  }

  lemma {:induction false} JoinLastChar(parts: seq<string>, sep: string)
    requires |parts| >= 1 && parts[|parts| - 1] != []
    ensures var j := Join(sep, parts); j != [] && j[|j| - 1] == parts[|parts| - 1][|parts[|parts| - 1]| - 1]
  {
    if |parts| > 1 {
      JoinLastChar(parts[1..], sep);
    }
  }

  /** The first piece of a join is at its front. */
  lemma JoinFront(sep: string, parts: seq<string>)
    requires |parts| >= 1
    ensures StartsWith(Join(sep, parts), parts[0])
  {
  }

  // ---------------------------------------------------------------------
  // First element of a sequence that satisfies a test (`for … break`)
  // ---------------------------------------------------------------------

  /** Index of the first element satisfying `p`, or `|xs|` when none does. */
  function IndexWhere<T>(xs: seq<T>, p: T -> bool): (i: nat)
    ensures i <= |xs|
    ensures i < |xs| ==> p(xs[i])
    ensures forall j | 0 <= j < i :: !p(xs[j])
  {
    if xs == [] then 0 else if p(xs[0]) then 0 else 1 + IndexWhere(xs[1..], p)
  }

  /** The first index satisfying `p` is the one before which none does. */
  lemma IndexWhereIs<T>(xs: seq<T>, p: T -> bool, i: nat)
    requires i <= |xs| && (i < |xs| ==> p(xs[i]))
    requires forall j | 0 <= j < i :: !p(xs[j])
    ensures IndexWhere(xs, p) == i
  {
  }

  // ---------------------------------------------------------------------
  // Slicing `s[:n]`
  // ---------------------------------------------------------------------

  /** Python's `s[:n]` for a non-negative `n`. */
  function Take<T>(s: seq<T>, n: nat): (r: seq<T>)
    ensures |r| == if |s| <= n then |s| else n
    ensures r == s[..|r|]
  {
    if |s| <= n then s else s[..n]
  }

  /** Concatenation regrouped behind its first part. */
  lemma Regroup<T>(a: seq<T>, m: seq<T>, b: seq<T>, n: seq<T>, c: seq<T>)
    ensures a + m + b + n + c == a + (m + b + n + c)
  {
  }

  /** Four parts concatenated, grouped from the right. */
  lemma Nest<T>(a: seq<T>, m: seq<T>, b: seq<T>, n: seq<T>)
    ensures a + m + b + n == a + (m + (b + n))
  {
  }

  /** A prefix of a prefix is a prefix. */
  lemma PrefixTrans<T>(a: seq<T>, b: seq<T>, c: seq<T>)
    requires |a| <= |b| && b[..|a|] == a
    requires |b| <= |c| && c[..|b|] == b
    ensures |a| <= |c| && c[..|a|] == a
  {
    assert c[..|a|] == c[..|b|][..|a|];
  }

  // ---------------------------------------------------------------------
  // Decimal rendering (`str(n)`, `%d`, zero-padded `%Y`/`%m`/`%d`)
  // ---------------------------------------------------------------------

  predicate IsDigit(c: char) {
    '0' <= c <= '9'
  }

  function Digit(d: nat): (c: char)
    requires d < 10
    ensures IsDigit(c) && c as int - '0' as int == d
  {
    "0123456789"[d]
  }

  /** Python's `str(n)` for a natural number. */
  function NatToString(n: nat): (r: string)
    ensures |r| >= 1
    ensures forall i | 0 <= i < |r| :: IsDigit(r[i])
    ensures r[0] == '0' <==> n == 0
  {
    if n < 10 then [Digit(n)] else NatToString(n / 10) + [Digit(n % 10)]
  }

  /** The number a string of decimal digits denotes. */
  function DigitsValue(s: string): nat
    requires forall i | 0 <= i < |s| :: IsDigit(s[i])
  {
    if s == [] then 0
    else
      assert IsDigit(s[|s| - 1]);
      DigitsValue(s[..|s| - 1]) * 10 + (s[|s| - 1] as int - '0' as int)
  }

  /** Reading back the decimal rendering of `n` gives `n`. */
  lemma {:induction false} NatToStringValue(n: nat)
    ensures DigitsValue(NatToString(n)) == n
  {
    if n >= 10 {
      var r := NatToString(n);
      assert r[..|r| - 1] == NatToString(n / 10);
      NatToStringValue(n / 10);
    }
  }

  /** A digit string that opens with a non-zero digit denotes a positive number. */
  lemma {:induction false} LeadingDigitPositive(s: string)
    requires |s| >= 1 && forall i | 0 <= i < |s| :: IsDigit(s[i])
    requires s[0] != '0'
    ensures DigitsValue(s) > 0
  {
    if |s| > 1 {
      LeadingDigitPositive(s[..|s| - 1]);
    }
  }

  /** The decimal rendering is the only canonical one: a non-empty digit
      string without a leading zero (or "0" itself) that denotes `n` is
      `NatToString(n)`. */
  lemma {:induction false} NatToStringCanonical(s: string, n: nat)
    requires |s| >= 1 && forall i | 0 <= i < |s| :: IsDigit(s[i])
    requires s[0] == '0' ==> |s| == 1
    requires DigitsValue(s) == n
    ensures s == NatToString(n)
  {
    var last := s[|s| - 1];
    assert IsDigit(last);
    var d := last as int - '0' as int;
    if |s| == 1 {
      assert n == d;
      assert Digit(n) == last;
    } else {
      var p := s[..|s| - 1];
      LeadingDigitPositive(p);
      assert n == DigitsValue(p) * 10 + d;
      assert n / 10 == DigitsValue(p) && n % 10 == d;
      NatToStringCanonical(p, n / 10);
      assert Digit(n % 10) == last;
      assert s == p + [last];
    }
  }

  /** `n` as exactly `width` digits, zero-padded on the left (`%02d`, `%04d`). */
  function Padded(n: nat, width: nat): (r: string)
    ensures |r| == width
    ensures forall i | 0 <= i < |r| :: IsDigit(r[i])
  {
    if width == 0 then "" else Padded(n / 10, width - 1) + [Digit(n % 10)]
  }

  /** For `n < 10^width` nothing is lost: the padded digits read back as `n`. */
  lemma {:induction false} PaddedValue(n: nat, width: nat)
    requires n < Power10(width)
    ensures DigitsValue(Padded(n, width)) == n
  {
    if width > 0 {
      var r := Padded(n, width);
      assert r[..|r| - 1] == Padded(n / 10, width - 1);
      PaddedValue(n / 10, width - 1);
    }
  }

  function Power10(k: nat): nat {
    if k == 0 then 1 else 10 * Power10(k - 1)
  }
}
