/** The PHP string primitives the application code relies on — `explode`,
    `implode`, `trim`, `str_replace`, `strtolower`, `(int)` casts and decimal
    rendering — each defined once and characterised by its contract. */
module Strings {

  // ---------------------------------------------------------------------
  // explode / implode
  // ---------------------------------------------------------------------

  /** PHP `implode(sep, parts)` for a non-empty list of parts. */
  function Join(parts: seq<string>, sep: char): string
    requires |parts| >= 1
  {
    if |parts| == 1 then parts[0] else parts[0] + [sep] + Join(parts[1..], sep)
  }

  /** Number of occurrences of `c` in `s`. */
  function Count(s: string, c: char): nat
  {
    if |s| == 0 then 0 else (if s[0] == c then 1 else 0) + Count(s[1..], c)
  }

  /** PHP `explode(sep, s)` with a one-character separator: never empty, no
      part holds the separator, and joining the parts back gives `s`. */
  function Split(s: string, sep: char): (parts: seq<string>)
    ensures |parts| == Count(s, sep) + 1
    ensures forall i :: 0 <= i < |parts| ==> sep !in parts[i]
    ensures Join(parts, sep) == s
    decreases |s|
  {
    if |s| == 0 then [""]
    else
      var rest := Split(s[1..], sep);
      if s[0] == sep then
        assert ([""] + rest)[1..] == rest;
        [""] + rest
      else
        var parts := [[s[0]] + rest[0]] + rest[1..];
        assert |rest| > 1 ==> parts[1..] == rest[1..];
        parts
  }

  /** Splitting a separator-free string gives the string itself. */
  lemma {:induction false} SplitNoSeparator(a: string, sep: char)
    requires sep !in a
    ensures Split(a, sep) == [a]
    decreases |a|
  {
    if |a| > 0 {
      SplitNoSeparator(a[1..], sep);
      assert [a[0]] + a[1..] == a;
    }
  }

  /** Splitting `a + sep + b` with a separator-free `a` peels `a` off. */
  lemma {:induction false} SplitCons(a: string, b: string, sep: char)
    requires sep !in a
    ensures Split(a + [sep] + b, sep) == [a] + Split(b, sep)
    decreases |a|
  {
    var s := a + [sep] + b;
    if |a| == 0 {
      assert s[0] == sep && s[1..] == b;
    } else {
      assert s[1..] == a[1..] + [sep] + b;
      SplitCons(a[1..], b, sep);
      assert [a[0]] + a[1..] == a;
    }
  }

  /** `explode` undoes `implode` when no part holds the separator. */
  lemma {:induction false} SplitJoin(parts: seq<string>, sep: char)
    requires |parts| >= 1
    requires forall i :: 0 <= i < |parts| ==> sep !in parts[i]
    ensures Split(Join(parts, sep), sep) == parts
    decreases |parts|
  {
    if |parts| == 1 {
      SplitNoSeparator(parts[0], sep);
    } else {
      SplitJoin(parts[1..], sep);
      SplitCons(parts[0], Join(parts[1..], sep), sep);
      assert [parts[0]] + parts[1..] == parts;
    }
  }

  // ---------------------------------------------------------------------
  // trim
  // ---------------------------------------------------------------------

  /** The default character list of PHP `trim`: space, tab, line feed,
      carriage return, NUL and vertical tab. */
  const Whitespace: set<char> := {' ', '\t', '\n', '\r', '\0', 11 as char}

  /** The first index at or after `i` whose character is not in `cs`, or
      `|s|` when there is none. */
  function SkipForward(s: string, cs: set<char>, i: nat): (n: nat)
    requires i <= |s|
    ensures i <= n <= |s|
    ensures forall k :: i <= k < n ==> s[k] in cs
    ensures n < |s| ==> s[n] !in cs
    decreases |s| - i
  {
    if i == |s| || s[i] !in cs then i else SkipForward(s, cs, i + 1)
  }

  /** The end of `s[lo..j]` once the characters of `cs` at its end are cut
      off. */
  function SkipBackward(s: string, cs: set<char>, lo: nat, j: nat): (n: nat)
    requires lo <= j <= |s|
    ensures lo <= n <= j
    ensures forall k :: n <= k < j ==> s[k] in cs
    ensures n > lo ==> s[n - 1] !in cs
    decreases j
  {
    if j == lo || s[j - 1] !in cs then j else SkipBackward(s, cs, lo, j - 1)
  }

  /** PHP `trim(s, cs)`: the result is the slice of `s` left when the
      characters of `cs` are cut off both ends; its own ends are outside
      `cs`. */
  function Trim(s: string, cs: set<char>): (r: string)
    ensures |r| > 0 ==> r[0] !in cs && r[|r| - 1] !in cs
    ensures var lo := SkipForward(s, cs, 0);
              && lo <= |s| - |r| && r == s[lo..lo + |r|]
              && (forall k :: 0 <= k < lo ==> s[k] in cs)
              && (forall k :: lo + |r| <= k < |s| ==> s[k] in cs)
  {
    var lo := SkipForward(s, cs, 0);
    s[lo..SkipBackward(s, cs, lo, |s|)]
  }

  /** Trimming a string whose ends are already outside `cs` changes nothing;
      in particular `Trim` is idempotent. */
  lemma TrimKeepsTrimmed(s: string, cs: set<char>)
    requires |s| > 0 ==> s[0] !in cs && s[|s| - 1] !in cs
    ensures Trim(s, cs) == s
  {
  }

  // ---------------------------------------------------------------------
  // str_replace
  // ---------------------------------------------------------------------

  /** `pat` occurs in `text` starting at index `i`. */
  predicate OccursAt(text: string, pat: string, i: int)
  {
    0 <= i && i + |pat| <= |text| && text[i..i + |pat|] == pat
  }

  /** `pat` occurs somewhere in `text`. */
  predicate Occurs(text: string, pat: string)
  {
    exists i :: 0 <= i <= |text| && OccursAt(text, pat, i)
  }

  /** An occurrence in a suffix of the text is one in the whole text,
      shifted by the length of the part cut off. */
  lemma OccursInSuffix(text: string, pat: string, d: nat, i: nat)
    requires d <= |text| && OccursAt(text[d..], pat, i)
    ensures OccursAt(text, pat, i + d)
  {
    assert text[d..][i..i + |pat|] == text[i + d..i + d + |pat|];
  }

  /** An occurrence in the text without its first character is one in the
      whole text, one position further on. */
  lemma OccursInTail(text: string, pat: string, i: nat)
    requires |text| > 0
    ensures OccursAt(text[1..], pat, i) <==> OccursAt(text, pat, i + 1)
  {
    if i + |pat| <= |text[1..]| {
      assert text[1..][i..i + |pat|] == text[i + 1..i + 1 + |pat|];
    }
  }

  /** No occurrence anywhere means none in the tail either. */
  lemma AbsentInTail(text: string, pat: string)
    requires |text| > 0
    requires forall i :: 0 <= i < |text| ==> !OccursAt(text, pat, i)
    ensures forall i :: 0 <= i < |text| - 1 ==> !OccursAt(text[1..], pat, i)
  {
    forall i | 0 <= i < |text| - 1
      ensures !OccursAt(text[1..], pat, i)
    {
      OccursInTail(text, pat, i);
    }
  }

  /** PHP `str_replace(pat, rep, text)`: every left-to-right, non-overlapping
      occurrence of `pat` becomes `rep`; an empty `pat` replaces nothing. */
  function ReplaceAll(text: string, pat: string, rep: string): (r: string)
    ensures |pat| == 0 ==> r == text
    ensures rep == pat ==> r == text
    ensures forall c :: c in r ==> c in text || c in rep
    decreases |text|
  {
    if |pat| == 0 || |text| == 0 then text
    else if pat <= text then
      var tail := ReplaceAll(text[|pat|..], pat, rep);
      assert rep == pat ==> rep + text[|pat|..] == text;
      assert forall c :: c in text[|pat|..] ==> c in text;
      rep + tail
    else
      var tail := ReplaceAll(text[1..], pat, rep);
      assert [text[0]] + text[1..] == text;
      assert forall c :: c in text[1..] ==> c in text;
      [text[0]] + tail
  }

  /** Text in which `pat` never occurs is left as it is. */
  lemma {:induction false} ReplaceAbsent(text: string, pat: string, rep: string)
    requires forall i :: 0 <= i < |text| ==> !OccursAt(text, pat, i)
    ensures ReplaceAll(text, pat, rep) == text
    decreases |text|
  {
    if |pat| > 0 && |text| > 0 {
      assert !OccursAt(text, pat, 0);
      assert !(pat <= text);
      AbsentInTail(text, pat);
      ReplaceAbsent(text[1..], pat, rep);
      assert [text[0]] + text[1..] == text;
    }
  }

  /** The first occurrence of `pat` is replaced, and scanning resumes right
      after it: the text before it is kept as it is. */
  lemma {:induction false} ReplaceFirst(u: string, pat: string, v: string, rep: string)
    requires |pat| > 0
    requires forall i :: 0 <= i < |u| ==> !OccursAt(u + pat + v, pat, i)
    ensures ReplaceAll(u + pat + v, pat, rep) == u + rep + ReplaceAll(v, pat, rep)
    decreases |u|
  {
    var t := u + pat + v;
    if |u| == 0 {
      assert t == pat + v;
      assert t[|pat|..] == v;
    } else {
      assert !(pat <= t) by { assert !OccursAt(t, pat, 0); }
      assert t[0] == u[0] && t[1..] == u[1..] + pat + v;
      forall i | 0 <= i < |u[1..]|
        ensures !OccursAt(u[1..] + pat + v, pat, i)
      {
        OccursInTail(t, pat, i);
      }
      ReplaceAllSkip(t, pat, rep);
      ReplaceFirst(u[1..], pat, v, rep);
      assert [u[0]] + (u[1..] + rep + ReplaceAll(v, pat, rep)) == u + rep + ReplaceAll(v, pat, rep) by {
        assert [u[0]] + u[1..] == u;
      }
    }
  }

  /** A text that does not start with the pattern keeps its first character. */
  lemma ReplaceAllSkip(t: string, pat: string, rep: string)
    requires |pat| > 0 && |t| > 0 && !(pat <= t)
    ensures ReplaceAll(t, pat, rep) == [t[0]] + ReplaceAll(t[1..], pat, rep)
  {
  }

  // ---------------------------------------------------------------------
  // ASCII case and character classes
  // ---------------------------------------------------------------------

  predicate IsUpper(c: char) { 'A' <= c <= 'Z' }

  predicate IsLowerLetter(c: char) { 'a' <= c <= 'z' }

  predicate IsDigit(c: char) { '0' <= c <= '9' }

  function LowerChar(c: char): char
  {
    if IsUpper(c) then (c as int + 32) as char else c
  }

  function UpperChar(c: char): char
  {
    if IsLowerLetter(c) then (c as int - 32) as char else c
  }

  /** PHP `strtolower` (byte-wise ASCII folding). */
  function Lower(s: string): (r: string)
    ensures |r| == |s|
    ensures forall i :: 0 <= i < |s| ==> r[i] == LowerChar(s[i])
  {
    seq(|s|, i requires 0 <= i < |s| => LowerChar(s[i]))
  }

  /** Every character is 7-bit ASCII. */
  predicate IsAscii(s: string)
  {
    forall i :: 0 <= i < |s| ==> s[i] as int < 128
  }

  /** Two ASCII texts make an ASCII text. */
  lemma AsciiAppend(a: string, b: string)
    requires IsAscii(a) && IsAscii(b)
    ensures IsAscii(a + b)
  {
    forall i | 0 <= i < |a + b|
      ensures (a + b)[i] as int < 128
    {
      if i >= |a| {
        assert (a + b)[i] == b[i - |a|];
      }
    }
  }

  /** PHP's notion of an "empty" string in `empty()` and `!$x`: the empty
      string and the string "0". */
  predicate PhpEmpty(s: string)
  {
    s == "" || s == "0"
  }

  // ---------------------------------------------------------------------
  // decimal numbers
  // ---------------------------------------------------------------------

  function DigitChar(d: nat): (c: char)
    requires d < 10
    ensures IsDigit(c)
  {
    ('0' as int + d) as char
  }

  function DigitValue(c: char): nat
    requires IsDigit(c)
  {
    c as int - '0' as int
  }

  /** PHP's decimal rendering of a non-negative integer: digits only, no
      leading zero. */
  function NatToString(n: nat): (r: string)
    ensures |r| >= 1
    ensures forall i :: 0 <= i < |r| ==> IsDigit(r[i])
    ensures r[0] == '0' ==> n == 0 && |r| == 1
    decreases n
  {
    if n < 10 then [DigitChar(n)] else NatToString(n / 10) + [DigitChar(n % 10)]
  }

  /** PHP's decimal rendering of an integer. */
  function IntToString(n: int): string
  {
    if n < 0 then "-" + NatToString(-n) else NatToString(n)
  }

  /** A three-digit number is rendered as its three digits. */
  lemma ThreeDigits(n: nat)
    requires 100 <= n < 1000
    ensures IntToString(n) == [DigitChar(n / 100), DigitChar(n / 10 % 10), DigitChar(n % 10)]
  {
    assert NatToString(n / 100) == [DigitChar(n / 100)];
    assert n / 10 / 10 == n / 100;
    assert NatToString(n / 10) == [DigitChar(n / 100), DigitChar(n / 10 % 10)];
  }

  /** The value of a string of decimal digits. */
  function DigitsValue(d: string): nat
    requires forall i :: 0 <= i < |d| ==> IsDigit(d[i])
  {
    if |d| == 0 then 0 else DigitsValue(d[..|d| - 1]) * 10 + DigitValue(d[|d| - 1])
  }

  /** Reading back a rendered number gives the number. */
  lemma {:induction false} NatToStringRoundTrip(n: nat)
    ensures DigitsValue(NatToString(n)) == n
    decreases n
  {
    if n >= 10 {
      NatToStringRoundTrip(n / 10);
      var r := NatToString(n);
      assert r[..|r| - 1] == NatToString(n / 10);
    }
  }

  /** Length of the longest all-digit prefix of `s`. */
  function DigitPrefixLength(s: string): (k: nat)
    ensures k <= |s|
    ensures forall i :: 0 <= i < k ==> IsDigit(s[i])
    ensures k < |s| ==> !IsDigit(s[k])
  {
    if |s| > 0 && IsDigit(s[0]) then 1 + DigitPrefixLength(s[1..]) else 0
  }

  /** PHP `(int)` cast of a string that starts with an unsigned decimal
      number (leading whitespace and signs are not modelled). */
  function LeadingInt(s: string): nat
  {
    DigitsValue(s[..DigitPrefixLength(s)])
  }

  /** Casting a rendered number back to `int` gives the number. */
  lemma LeadingIntOfNat(n: nat)
    ensures LeadingInt(NatToString(n)) == n
  {
    var r := NatToString(n);
    assert DigitPrefixLength(r) == |r| by {
      DigitPrefixOfDigits(r);
    }
    assert r[..|r|] == r;
    NatToStringRoundTrip(n);
  }

  lemma {:induction false} DigitPrefixOfDigits(s: string)
    requires forall i :: 0 <= i < |s| ==> IsDigit(s[i])
    ensures DigitPrefixLength(s) == |s|
    decreases |s|
  {
    if |s| > 0 {
      DigitPrefixOfDigits(s[1..]);
    }
  }

  /** Index of the first occurrence of `c` in `s`, if any. */
  function IndexOf(s: string, c: char): (r: int)
    ensures -1 <= r < |s|
    ensures r >= 0 ==> s[r] == c && forall i :: 0 <= i < r ==> s[i] != c
    ensures r < 0 ==> c !in s
  {
    if |s| == 0 then -1
    else if s[0] == c then 0
    else var k := IndexOf(s[1..], c); if k < 0 then -1 else k + 1
  }
}
