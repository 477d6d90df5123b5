/** The Python built-ins the NetDetective core leans on, over strings as
    sequences of characters: `int()` on ASCII digit strings, `str()` on
    naturals, `str.split`, `str.replace(c, "")` and `str.strip()`. */
module PyStr {

  datatype Option<+T> = None | Some(value: T)

  // ---------------------------------------------------------------------------
  // Decimal numerals: `int(s)` and `str(n)`
  // ---------------------------------------------------------------------------

  /** The regex class `[0-9]`: ASCII digits only. */
  predicate IsDigit(c: char) {
    '0' <= c <= '9'
  }

  predicate AllDigits(s: string) {
    forall i | 0 <= i < |s| :: IsDigit(s[i])
  }

  function DigitValue(c: char): (d: nat)
    requires IsDigit(c)
    ensures d < 10
  {
    (c as int) - ('0' as int)
  }

  function DigitChar(d: nat): (c: char)
    requires d < 10
    ensures IsDigit(c) && DigitValue(c) == d
  {
    (('0' as int) + d) as char
  }

  /** `int(s)` for a string of ASCII digits: s read in base ten, leading zeros allowed. */
  function DecimalValue(s: string): nat
    requires AllDigits(s)
    decreases |s|
  {
    if |s| == 0 then 0 else 10 * DecimalValue(s[..|s| - 1]) + DigitValue(s[|s| - 1])
  }

  /** A numeral as `str(n)` writes it: digits, and no leading zero unless it is "0". */
  predicate IsCanonicalDecimal(s: string) {
    |s| >= 1 && AllDigits(s) && (|s| == 1 || s[0] != '0')
  }

  function Pow10(n: nat): (p: nat)
    ensures p >= 1
  {
    if n == 0 then 1 else 10 * Pow10(n - 1)
  }

  lemma {:induction false} Pow10Monotone(m: nat, n: nat)
    requires m <= n
    ensures Pow10(m) <= Pow10(n)
  {
    if m < n {
      Pow10Monotone(m, n - 1);
    }
  }

  /** A numeral of k digits denotes less than 10^k. */
  lemma {:induction false} DecimalValueBelow(s: string)
    requires AllDigits(s)
    ensures DecimalValue(s) < Pow10(|s|)
  {
    if |s| > 0 {
      DecimalValueBelow(s[..|s| - 1]);
    }
  }

  /** A numeral of k digits that does not start with '0' denotes at least 10^(k-1). */
  lemma {:induction false} DecimalValueAtLeast(s: string)
    requires AllDigits(s) && |s| >= 1 && s[0] != '0'
    ensures DecimalValue(s) >= Pow10(|s| - 1)
  {
    if |s| > 1 {
      var p := s[..|s| - 1];
      assert p[0] == s[0];
      DecimalValueAtLeast(p);
    }
  }

  /** `str(n)`: the canonical numeral of n, which `int()` reads back as n. */
  function FormatDecimal(n: nat): (s: string)
    ensures IsCanonicalDecimal(s) && DecimalValue(s) == n
    decreases n
  {
    if n < 10 then [DigitChar(n)]
    else
      var p := FormatDecimal(n / 10);
      var s := p + [DigitChar(n % 10)];
      assert s[..|s| - 1] == p;
      assert |p| == 1 ==> DecimalValue(p) == DigitValue(p[0]);
      s
  }

  /** The other half of the round trip: a canonical numeral is `str` of its value. */
  lemma {:induction false} FormatDecimalOfValue(s: string)
    requires IsCanonicalDecimal(s)
    ensures FormatDecimal(DecimalValue(s)) == s
  {
    var n := |s|;
    if n == 1 {
      assert DecimalValue(s) == DigitValue(s[0]);
    } else {
      var p := s[..n - 1];
      assert p[0] == s[0];
      DecimalValueAtLeast(p);
      FormatDecimalOfValue(p);
      var v := DecimalValue(s);
      assert v == 10 * DecimalValue(p) + DigitValue(s[n - 1]);
      assert v / 10 == DecimalValue(p) && v % 10 == DigitValue(s[n - 1]);
      assert s == p + [s[n - 1]];
    }
  }

  // ---------------------------------------------------------------------------
  // `s.split(sep)` and its inverse `sep.join(parts)`
  // ---------------------------------------------------------------------------

  /** `sep.join(parts)`. */
  function Join(parts: seq<string>, sep: char): string
    requires |parts| >= 1
  {
    if |parts| == 1 then parts[0] else parts[0] + [sep] + Join(parts[1..], sep)
  }

  /** `s.split(sep)`: the pieces of s between occurrences of sep, in order;
      always at least one piece, and joining them with sep gives s back. */
  function Split(s: string, sep: char): (parts: seq<string>)
    ensures |parts| >= 1
    ensures forall i | 0 <= i < |parts| :: sep !in parts[i]
    ensures Join(parts, sep) == s
    decreases |s|
  {
    if |s| == 0 then [[]]
    else
      var rest := Split(s[1..], sep);
      if s[0] == sep then
        assert ([[]] + rest)[1..] == rest;
        [[]] + rest
      else
        var parts := [[s[0]] + rest[0]] + rest[1..];
        assert |rest| > 1 ==> parts[1..] == rest[1..] && Join(rest, sep) == rest[0] + [sep] + Join(rest[1..], sep);
        assert [s[0]] + s[1..] == s;
        parts
  }

  lemma {:induction false} SplitWithoutSep(a: string, sep: char)
    requires sep !in a
    ensures Split(a, sep) == [a]
    decreases |a|
  {
    if |a| > 0 {
      SplitWithoutSep(a[1..], sep);
      assert [a[0]] + a[1..] == a;
    }
  }

  lemma {:induction false} SplitAfterField(a: string, sep: char, t: string)
    requires sep !in a
    ensures Split(a + [sep] + t, sep) == [a] + Split(t, sep)
    decreases |a|
  {
    var s := a + [sep] + t;
    if |a| == 0 {
      assert s == [sep] + t;
      assert s[1..] == t;
    } else {
      assert s[0] == a[0] && s[1..] == a[1..] + [sep] + t;
      SplitAfterField(a[1..], sep, t);
      var rest := Split(s[1..], sep);
      assert rest[0] == a[1..] && rest[1..] == Split(t, sep);
      assert [a[0]] + a[1..] == a;
    }
  }

  /** Splitting undoes joining, provided no piece contains the separator. */
  lemma {:induction false} SplitJoin(parts: seq<string>, sep: char)
    requires |parts| >= 1
    requires forall i | 0 <= i < |parts| :: sep !in parts[i]
    ensures Split(Join(parts, sep), sep) == parts
    decreases |parts|
  {
    if |parts| == 1 {
      SplitWithoutSep(parts[0], sep);
    } else {
      SplitJoin(parts[1..], sep);
      SplitAfterField(parts[0], sep, Join(parts[1..], sep));
      assert [parts[0]] + parts[1..] == parts;
    }
  }

  /** A character that is in no piece and is not the separator is not in the joined string. */
  lemma {:induction false} JoinExcludes(parts: seq<string>, sep: char, c: char)
    requires |parts| >= 1 && c != sep
    requires forall i | 0 <= i < |parts| :: c !in parts[i]
    ensures c !in Join(parts, sep)
    decreases |parts|
  {
    if |parts| > 1 {
      JoinExcludes(parts[1..], sep, c);
    }
  }

  // ---------------------------------------------------------------------------
  // `s.replace(c, "")`
  // ---------------------------------------------------------------------------

  /** `s.replace(c, "")`: s with every occurrence of c deleted. */
  function RemoveAll(s: string, c: char): string
    decreases |s|
  {
    if |s| == 0 then []
    else if s[0] == c then RemoveAll(s[1..], c)
    else [s[0]] + RemoveAll(s[1..], c)
  }

  /** Deletion drops every c and keeps every other character as often as it occurs. */
  lemma {:induction false} RemoveAllSpec(s: string, c: char)
    ensures multiset(RemoveAll(s, c)) == multiset(s)[c := 0]
    decreases |s|
  {
    if |s| > 0 {
      RemoveAllSpec(s[1..], c);
      assert s == [s[0]] + s[1..];
    }
  }

  /** Deletion keeps the order of what remains: it distributes over concatenation. */
  lemma {:induction false} RemoveAllConcat(a: string, b: string, c: char)
    ensures RemoveAll(a + b, c) == RemoveAll(a, c) + RemoveAll(b, c)
    decreases |a|
  {
    if |a| > 0 {
      RemoveAllConcat(a[1..], b, c);
      assert (a + b)[1..] == a[1..] + b;
    } else {
      assert a + b == b;
    }
  }

  /** A string without c is left as it is. */
  lemma {:induction false} RemoveAllAbsent(s: string, c: char)
    requires c !in s
    ensures RemoveAll(s, c) == s
    decreases |s|
  {
    if |s| > 0 {
      RemoveAllAbsent(s[1..], c);
      assert s == [s[0]] + s[1..];
    }
  }

  // ---------------------------------------------------------------------------
  // `s.strip()`
  // ---------------------------------------------------------------------------

  /** The characters `str.strip()` removes: those for which `str.isspace()` holds. */
  predicate IsPySpace(c: char) {
    var n := c as int;
    (0x09 <= n <= 0x0D) || (0x1C <= n <= 0x20) || n == 0x85 || n == 0xA0 || n == 0x1680
    || (0x2000 <= n <= 0x200A) || n == 0x2028 || n == 0x2029 || n == 0x202F || n == 0x205F
    || n == 0x3000
  }

  predicate AllPySpace(s: string) {
    forall i | 0 <= i < |s| :: IsPySpace(s[i])
  }

  /** Deletes leading white space. */
  function TrimStart(s: string): string
    decreases |s|
  {
    if |s| > 0 && IsPySpace(s[0]) then TrimStart(s[1..]) else s
  }

  /** Deletes trailing white space. */
  function TrimEnd(s: string): string
    decreases |s|
  {
    if |s| > 0 && IsPySpace(s[|s| - 1]) then TrimEnd(s[..|s| - 1]) else s
  }

  /** `s.strip()`. */
  function Strip(s: string): string {
    TrimEnd(TrimStart(s))
  }

  /** Trimming the start keeps the longest suffix whose first character is
      not white space, and everything it drops is white space. */
  lemma {:induction false} TrimStartSpec(s: string)
    ensures |TrimStart(s)| <= |s| && TrimStart(s) == s[|s| - |TrimStart(s)|..]
    ensures AllPySpace(s[..|s| - |TrimStart(s)|])
    ensures TrimStart(s) == [] || !IsPySpace(TrimStart(s)[0])
    decreases |s|
  {
    if |s| > 0 && IsPySpace(s[0]) {
      var r := TrimStart(s[1..]);
      TrimStartSpec(s[1..]);
      assert s[..|s| - |r|] == [s[0]] + s[1..][..|s| - 1 - |r|];
    }
  }

  /** Trimming the end keeps the longest prefix whose last character is not
      white space, and everything it drops is white space. */
  lemma {:induction false} TrimEndSpec(s: string)
    ensures |TrimEnd(s)| <= |s| && TrimEnd(s) == s[..|TrimEnd(s)|]
    ensures AllPySpace(s[|TrimEnd(s)|..])
    ensures TrimEnd(s) == [] || !IsPySpace(TrimEnd(s)[|TrimEnd(s)| - 1])
    decreases |s|
  {
    if |s| > 0 && IsPySpace(s[|s| - 1]) {
      var r := TrimEnd(s[..|s| - 1]);
      TrimEndSpec(s[..|s| - 1]);
      assert s[|r|..] == s[..|s| - 1][|r|..] + [s[|s| - 1]];
    }
  }

  /** `s.strip()` is the slice of s between a run of white space at each end,
      and is empty or neither starts nor ends with white space. */
  lemma StripSpec(s: string)
    ensures var i := |s| - |TrimStart(s)|;
      && 0 <= i <= i + |Strip(s)| <= |s|
      && Strip(s) == s[i..i + |Strip(s)|]
      && AllPySpace(s[..i]) && AllPySpace(s[i + |Strip(s)|..])
    ensures Strip(s) == [] || (!IsPySpace(Strip(s)[0]) && !IsPySpace(Strip(s)[|Strip(s)| - 1]))
  {
    var u := TrimStart(s);
    var i := |s| - |u|;
    TrimStartSpec(s);
    TrimEndSpec(u);
    var r := Strip(s);
    assert u == s[i..];
    assert r == s[i..i + |r|];
    assert s[i + |r|..] == u[|r|..];
  }

  lemma {:induction false} TrimStartSkipsSpace(lead: string, u: string)
    requires AllPySpace(lead)
    ensures TrimStart(lead + u) == TrimStart(u)
    decreases |lead|
  {
    if |lead| > 0 {
      assert (lead + u)[0] == lead[0];
      assert (lead + u)[1..] == lead[1..] + u;
      TrimStartSkipsSpace(lead[1..], u);
    } else {
      assert lead + u == u;
    }
  }

  lemma {:induction false} TrimEndSkipsSpace(u: string, trail: string)
    requires AllPySpace(trail)
    ensures TrimEnd(u + trail) == TrimEnd(u)
    decreases |trail|
  {
    if |trail| > 0 {
      var n := |u + trail|;
      assert (u + trail)[n - 1] == trail[|trail| - 1];
      assert (u + trail)[..n - 1] == u + trail[..|trail| - 1];
      TrimEndSkipsSpace(u, trail[..|trail| - 1]);
    } else {
      assert u + trail == u;
    }
  }

  /** Stripping removes exactly the white space around a text that has none at its ends. */
  lemma StripPadded(lead: string, t: string, trail: string)
    requires AllPySpace(lead) && AllPySpace(trail)
    requires t == [] || (!IsPySpace(t[0]) && !IsPySpace(t[|t| - 1]))
    ensures Strip(lead + t + trail) == t
  {
    assert lead + t + trail == lead + (t + trail);
    TrimStartSkipsSpace(lead, t + trail);
    if t == [] {
      assert t + trail == trail + [];
      TrimStartSkipsSpace(trail, []);
    } else {
      TrimEndSkipsSpace(t, trail);
    }
  }
}
