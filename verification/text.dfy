/**
 The handful of .NET string operations the dialog logic relies on:
 `char.IsWhiteSpace`, `string.IsNullOrWhiteSpace`, `Trim`, `Split(':')`,
 decimal printing of a non-negative integer, the `D2` format, and a
 simplified `int.TryParse`.
 */
module Text {
  import opened Base

  /** .NET's `char.IsWhiteSpace`: the Unicode separators plus U+0009–U+000D and U+0085. */
  predicate IsWhiteSpace(c: char)
  {
    || c == ' '
    || '\t' <= c <= '\r'
    || c == '\U{85}' || c == '\U{A0}' || c == '\U{1680}'
    || '\U{2000}' <= c <= '\U{200A}'
    || c == '\U{2028}' || c == '\U{2029}' || c == '\U{202F}' || c == '\U{205F}' || c == '\U{3000}'
  }

  /** The white space `int.TryParse` skips around a number: U+0009–U+000D and the space. */
  predicate IsNumberWhiteSpace(c: char)
  {
    c == ' ' || '\t' <= c <= '\r'
  }

  predicate AllSatisfy(s: string, p: char -> bool)
  {
    forall i | 0 <= i < |s| :: p(s[i])
  }

  /** `string.IsNullOrWhiteSpace`. */
  predicate IsNullOrWhiteSpace(s: Option<string>)
  {
    s.None? || AllSatisfy(s.value, IsWhiteSpace)
  }

  /** Number of leading characters of `s` that satisfy `white`. */
  function LeadingCount(s: string, white: char -> bool): (n: nat)
    ensures n <= |s|
    ensures AllSatisfy(s[..n], white)
    ensures n < |s| ==> !white(s[n])
    decreases |s|
  {
    if |s| > 0 && white(s[0]) then
      var n := 1 + LeadingCount(s[1..], white);
      assert forall i | 1 <= i < n :: s[..n][i] == s[1..][..n - 1][i - 1];
      n
    else 0
  }

  /** Position where the trailing run of characters satisfying `white` starts. */
  function TrailingStart(s: string, white: char -> bool): (n: nat)
    ensures n <= |s|
    ensures AllSatisfy(s[n..], white)
    ensures n > 0 ==> !white(s[n - 1])
    decreases |s|
  {
    if |s| > 0 && white(s[|s| - 1]) then
      var n := TrailingStart(s[..|s| - 1], white);
      assert s[n..] == s[..|s| - 1][n..] + [s[|s| - 1]];
      n
    else |s|
  }

  /**
   `s` without its leading and trailing characters that satisfy `white`: a
   contiguous piece of `s`, flanked by such characters only, that neither
   starts nor ends with one.
   */
  function TrimWith(s: string, white: char -> bool): (r: string)
    ensures AllSatisfy(s, white) <==> r == []
    ensures r != [] ==> !white(r[0]) && !white(r[|r| - 1])
    ensures exists i, j | 0 <= i <= j <= |s| :: r == s[i..j] && AllSatisfy(s[..i], white) && AllSatisfy(s[j..], white)
  {
    var i := LeadingCount(s, white);
    var j := TrailingStart(s, white);
    if i == |s| then
      assert s[..i] == s;
      assert s[i..i] == [];
      []
    else
      assert i < j by {
        forall m | j <= m < |s|
          ensures white(s[m])
        {
          assert s[j..][m - j] == s[m];
        }
        assert !white(s[i]);
      }
      assert !AllSatisfy(s, white) by {
        assert !white(s[i]);
      }
      s[i..j]
  }

  /** .NET's `string.Trim()`. */
  function Trim(s: string): (r: string)
    ensures AllSatisfy(s, IsWhiteSpace) <==> r == []
    ensures r != [] ==> !IsWhiteSpace(r[0]) && !IsWhiteSpace(r[|r| - 1])
    ensures exists i, j | 0 <= i <= j <= |s| ::
      r == s[i..j] && AllSatisfy(s[..i], IsWhiteSpace) && AllSatisfy(s[j..], IsWhiteSpace)
  {
    TrimWith(s, IsWhiteSpace)
  }

  /**
   `r` is `s` without its leading and trailing white space, and `s` was not
   blank: `r` is a non-empty piece of `s` that neither starts nor ends with
   white space and is flanked by white space only.
   */
  ghost predicate TrimmedFrom(r: string, s: string)
  {
    && r != [] && !IsWhiteSpace(r[0]) && !IsWhiteSpace(r[|r| - 1])
    && exists i, j | 0 <= i <= j <= |s| ::
         r == s[i..j] && AllSatisfy(s[..i], IsWhiteSpace) && AllSatisfy(s[j..], IsWhiteSpace)
  }

  /** Trimming a string that is not blank gives a trimmed, non-empty piece of it. */
  lemma TrimNonBlank(s: string)
    requires !AllSatisfy(s, IsWhiteSpace)
    ensures TrimmedFrom(Trim(s), s)
  {
  }

  /** Trimming a string that neither starts nor ends with white space leaves it as it is. */
  lemma TrimWithUnchanged(s: string, white: char -> bool)
    requires s != [] && !white(s[0]) && !white(s[|s| - 1])
    ensures TrimWith(s, white) == s
  {
    assert LeadingCount(s, white) == 0;
    assert TrailingStart(s, white) == |s|;
  }

  // ---- Split ----

  /** Glues parts back together with `sep` between neighbours. */
  function Join(parts: seq<string>, sep: char): string
    requires |parts| >= 1
    decreases |parts|
  {
    if |parts| == 1 then parts[0] else parts[0] + [sep] + Join(parts[1..], sep)
  }

  /**
   `s.Split(sep)`: the pieces between occurrences of `sep`. No piece contains
   `sep`, and joining the pieces with `sep` gives `s` back; together these
   determine the pieces.
   */
  function Split(s: string, sep: char): (parts: seq<string>)
    ensures |parts| >= 1
    ensures forall k | 0 <= k < |parts| :: sep !in parts[k]
    ensures Join(parts, sep) == s
    decreases |s|
  {
    var k := IndexOf(s, sep);
    if k < 0 then [s]
    else
      var rest := Split(s[k + 1..], sep);
      var parts := [s[..k]] + rest;
      assert parts[1..] == rest;
      assert s == s[..k] + [sep] + s[k + 1..];
      parts
  }

  /** A string with exactly one separator splits into the two pieces around it. */
  lemma SplitAroundOne(a: string, b: string, sep: char)
    requires sep !in a && sep !in b
    ensures Split(a + [sep] + b, sep) == [a, b]
  {
    var s := a + [sep] + b;
    var k := IndexOf(s, sep);
    assert s[|a|] == sep;
    assert k == |a| by {
      forall m | 0 <= m < |a|
        ensures s[m] != sep
      {
        assert s[m] == a[m];
      }
      forall m | 0 <= m < k
        ensures s[m] != sep
      {
        assert s[..k][m] == s[m];
      }
    }
    assert s[..k] == a;
    assert s[k + 1..] == b;
  }

  // ---- Decimal digits ----

  predicate IsDigit(c: char)
  {
    '0' <= c <= '9'
  }

  lemma DigitIsNotWhiteSpace(c: char)
    requires IsDigit(c)
    ensures !IsWhiteSpace(c) && !IsNumberWhiteSpace(c)
  {
  }

  lemma DigitsHaveNoColon(s: string)
    requires AllSatisfy(s, IsDigit)
    ensures ':' !in s
  {
    forall i | 0 <= i < |s|
      ensures s[i] != ':'
    {
      assert IsDigit(s[i]);
    }
  }

  function DigitValue(c: char): (d: nat)
    requires IsDigit(c)
    ensures d < 10
  {
    (c as int) - ('0' as int)
  }

  function DigitChar(d: nat): (c: char)
    requires d < 10
    ensures IsDigit(c) && DigitValue(c) == d
  {
    (('0' as int) + d) as char
  }

  /** The number a string of decimal digits denotes, most significant digit first. */
  function DigitsValue(s: string): nat
    requires AllSatisfy(s, IsDigit)
    decreases |s|
  {
    if s == [] then 0
    else
      assert AllSatisfy(s[..|s| - 1], IsDigit);
      DigitsValue(s[..|s| - 1]) * 10 + DigitValue(s[|s| - 1])
  }

  /** A digit string prefixed with zero denotes the same number. */
  lemma {:induction false} LeadingZero(s: string)
    requires AllSatisfy(s, IsDigit)
    ensures AllSatisfy("0" + s, IsDigit)
    ensures DigitsValue("0" + s) == DigitsValue(s)
    decreases |s|
  {
    if s != [] {
      var z := "0" + s;
      assert z[..|z| - 1] == "0" + s[..|s| - 1];
      assert AllSatisfy(s[..|s| - 1], IsDigit);
      LeadingZero(s[..|s| - 1]);
    }
  }

  /**
   The decimal form of `n` with no leading zero, as `{n}` prints an integer:
   reading its digits gives back `n`.
   */
  function NatToDecimal(n: nat): (r: string)
    ensures |r| >= 1 && AllSatisfy(r, IsDigit)
    ensures DigitsValue(r) == n
    ensures |r| > 1 ==> r[0] != '0'
    ensures n < 10 ==> |r| == 1
    ensures 10 <= n < 100 ==> |r| == 2
    decreases n
  {
    if n < 10 then [DigitChar(n)]
    else
      var prefix := NatToDecimal(n / 10);
      var r := prefix + [DigitChar(n % 10)];
      assert r[..|r| - 1] == prefix;
      r
  }

  /** The `D2` format: at least two digits, padded with a leading zero. */
  function PadTwo(n: nat): (r: string)
    ensures |r| >= 2 && AllSatisfy(r, IsDigit)
    ensures DigitsValue(r) == n
    ensures n < 100 ==> |r| == 2
    ensures |r| > 2 ==> r[0] != '0'
  {
    if n < 10 then
      LeadingZero(NatToDecimal(n));
      "0" + NatToDecimal(n)
    else NatToDecimal(n)
  }

  // ---- Integer parsing ----

  /**
   `int.TryParse` with the default number style, simplified: white space
   U+0009–U+000D or U+0020 around the number, an optional `+` or `-` sign,
   then one or more ASCII digits whose value fits a 32-bit `int`.
   */
  function ParseInt32(s: string): (r: Option<Int32>)
  {
    var t := TrimWith(s, IsNumberWhiteSpace);
    var negative := |t| > 0 && t[0] == '-';
    var digits := if |t| > 0 && (t[0] == '-' || t[0] == '+') then t[1..] else t;
    if digits == [] || !AllSatisfy(digits, IsDigit) then None
    else
      var magnitude: int := DigitsValue(digits);
      var v := if negative then -magnitude else magnitude;
      if IntMin <= v <= IntMax then Some(v) else None
  }

  /** Parsing a digit string (decimal or zero-padded) gives back its value when it fits in an `int`. */
  lemma ParseDigits(s: string)
    requires s != [] && AllSatisfy(s, IsDigit)
    requires DigitsValue(s) <= IntMax
    ensures ParseInt32(s) == Some(DigitsValue(s))
  {
    TrimWithUnchanged(s, IsNumberWhiteSpace);
  }

  /** `int.TryParse` reads back what `{n}` printed. */
  lemma ParseDecimal(n: nat)
    requires n <= IntMax
    ensures ParseInt32(NatToDecimal(n)) == Some(n)
  {
    ParseDigits(NatToDecimal(n));
  }

  /** `int.TryParse` reads back what `{n:D2}` printed. */
  lemma ParsePadTwo(n: nat)
    requires n <= IntMax
    ensures ParseInt32(PadTwo(n)) == Some(n)
  {
    ParseDigits(PadTwo(n));
  }
}
