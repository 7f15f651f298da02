/**
 Python string built-ins that the three utilities rely on: `str.isspace`,
 `str.strip`, `str(int)` and single-character `str.replace`.
 */
module PyStr {

  /** `c.isspace()` for one character: the Unicode whitespace set that both
      `str.strip()` and the regular-expression class `\s` use. */
  predicate IsSpace(c: char)
  {
    || ('\t' <= c <= '\r')
    || ('\U{1C}' <= c <= '\U{1F}')
    || c == ' '
    || c == '\U{85}'
    || c == '\U{A0}'
    || c == '\U{1680}'
    || ('\U{2000}' <= c <= '\U{200A}')
    || c == '\U{2028}'
    || c == '\U{2029}'
    || c == '\U{202F}'
    || c == '\U{205F}'
    || c == '\U{3000}'
  }

  /** An ASCII decimal digit (the model's reading of `\d`). */
  predicate IsDigit(c: char)
  {
    '0' <= c <= '9'
  }

  predicate AllSpace(s: string)
  {
    forall k :: 0 <= k < |s| ==> IsSpace(s[k])
  }

  /** The first position at or after `i` that does not hold whitespace, or
      `|s|` if there is none. */
  function SkipSpace(s: string, i: nat): (n: nat)
    requires i <= |s|
    ensures i <= n <= |s| && (n < |s| ==> !IsSpace(s[n]))
    decreases |s| - i
  {
    if i < |s| && IsSpace(s[i]) then SkipSpace(s, i + 1) else i
  }

  /** The end of `s[..j]` once its trailing whitespace is dropped. */
  function SkipSpaceBack(s: string, j: nat): (n: nat)
    requires j <= |s|
    ensures n <= j && (n > 0 ==> !IsSpace(s[n - 1]))
  {
    if j > 0 && IsSpace(s[j - 1]) then SkipSpaceBack(s, j - 1) else j
  }

  /** `s.lstrip()`: the suffix left after dropping leading whitespace. */
  function StripLeft(s: string): (r: string)
    ensures |r| <= |s| && r == s[|s| - |r|..]
    ensures r != [] ==> !IsSpace(r[0])
  {
    s[SkipSpace(s, 0)..]
  }

  /** `s.rstrip()`: the prefix left after dropping trailing whitespace. */
  function StripRight(s: string): (r: string)
    ensures |r| <= |s| && r == s[..|r|]
    ensures r != [] ==> !IsSpace(r[|r| - 1])
  {
    s[..SkipSpaceBack(s, |s|)]
  }

  /** `s.strip()`. */
  function Strip(s: string): string
  {
    StripRight(StripLeft(s))
  }

  /** Everything the forward scan passes over is whitespace. */
  lemma {:induction false} SkipSpaceDrops(s: string, i: nat)
    requires i <= |s|
    ensures forall m :: i <= m < SkipSpace(s, i) ==> IsSpace(s[m])
    decreases |s| - i
  {
    if i < |s| && IsSpace(s[i]) {
      SkipSpaceDrops(s, i + 1);
    }
  }

  /** Everything the backward scan passes over is whitespace. */
  lemma {:induction false} SkipSpaceBackDrops(s: string, j: nat)
    requires j <= |s|
    ensures forall m :: SkipSpaceBack(s, j) <= m < j ==> IsSpace(s[m])
  {
    if j > 0 && IsSpace(s[j - 1]) {
      SkipSpaceBackDrops(s, j - 1);
    }
  }

  /** The forward scan stops at or before any non-whitespace character. */
  lemma {:induction false} SkipSpaceStops(s: string, i: nat, k: nat)
    requires i <= k < |s| && !IsSpace(s[k])
    ensures SkipSpace(s, i) <= k
    decreases |s| - i
  {
    if i < k {
      SkipSpaceStops(s, i + 1, k);
    }
  }

  /** The backward scan stops after any non-whitespace character. */
  lemma {:induction false} SkipSpaceBackStops(s: string, j: nat, k: nat)
    requires k < j <= |s| && !IsSpace(s[k])
    ensures k < SkipSpaceBack(s, j)
  {
    if k < j - 1 {
      SkipSpaceBackStops(s, j - 1, k);
    }
  }

  /** The stripped string is the slice of `s` between its leading and trailing
      whitespace, and it neither starts nor ends with whitespace. */
  lemma StripIsInnerSlice(s: string) returns (i: nat, j: nat)
    ensures i <= j <= |s| && Strip(s) == s[i..j]
    ensures AllSpace(s[..i]) && AllSpace(s[j..])
    ensures Strip(s) != [] ==> !IsSpace(Strip(s)[0]) && !IsSpace(Strip(s)[|Strip(s)| - 1])
  {
    var l := StripLeft(s);
    i := SkipSpace(s, 0);
    var n := SkipSpaceBack(l, |l|);
    j := i + n;
    SkipSpaceDrops(s, 0);
    SkipSpaceBackDrops(l, |l|);
    assert forall m :: j <= m < |s| ==> s[m] == l[m - i];
    assert Strip(s) == s[i..j];
    var r := Strip(s);
    assert r != [] ==> r[0] == l[0];
  }

  /** Stripping keeps every non-whitespace character; `j` is where it lands. */
  lemma StripKeeps(s: string, k: nat) returns (j: nat)
    requires k < |s| && !IsSpace(s[k])
    ensures j < |Strip(s)| && Strip(s)[j] == s[k]
  {
    var l := StripLeft(s);
    var i := SkipSpace(s, 0);
    SkipSpaceStops(s, 0, k);
    j := k - i;
    assert l[j] == s[k];
    SkipSpaceBackStops(l, |l|, j);
  }

  /** A text that neither starts nor ends with whitespace is its own strip. */
  lemma StripTrimmed(s: string)
    requires s != [] && !IsSpace(s[0]) && !IsSpace(s[|s| - 1])
    ensures Strip(s) == s
  {
    assert SkipSpace(s, 0) == 0;
    assert StripLeft(s) == s;
  }

  /** Stripping yields the empty string exactly when `s` is all whitespace. */
  lemma StripEmptyIffAllSpace(s: string)
    ensures Strip(s) == [] <==> AllSpace(s)
  {
    if AllSpace(s) {
      SkipSpaceAll(s, 0);
    } else {
      var k :| 0 <= k < |s| && !IsSpace(s[k]);
      var j := StripKeeps(s, k);
    }
  }

  /** Over a whitespace-only tail the forward scan runs to the end. */
  lemma {:induction false} SkipSpaceAll(s: string, i: nat)
    requires i <= |s| && AllSpace(s)
    ensures SkipSpace(s, i) == |s|
    decreases |s| - i
  {
    if i < |s| {
      SkipSpaceAll(s, i + 1);
    }
  }

  /** Stripping an already stripped string changes nothing. */
  lemma StripIdempotent(s: string)
    ensures Strip(Strip(s)) == Strip(s)
  {
    var t := Strip(s);
    if t != [] {
      assert t[0] == StripLeft(s)[0];
      StripTrimmed(t);
    }
  }

  /** `s.replace(c, rep)` for a one-character pattern `c`. */
  function ReplaceChar(s: string, c: char, rep: string): string
  {
    if s == [] then []
    else (if s[0] == c then rep else [s[0]]) + ReplaceChar(s[1..], c, rep)
  }

  lemma ReplaceCharAppend(a: string, b: string, c: char, rep: string)
    ensures ReplaceChar(a + b, c, rep) == ReplaceChar(a, c, rep) + ReplaceChar(b, c, rep)
  {
    if a == [] {
      assert a + b == b;
    } else {
      assert (a + b)[1..] == a[1..] + b;
      ReplaceCharAppend(a[1..], b, c, rep);
    }
  }

  /** The character for a decimal digit value. */
  function DigitChar(d: nat): (c: char)
    requires d < 10
    ensures IsDigit(c)
  {
    ('0' as int + d) as char
  }

  /** The decimal value of a digit character. */
  function DigitValue(c: char): (d: nat)
    requires IsDigit(c)
    ensures d < 10
  {
    c as int - '0' as int
  }

  predicate AllDigits(s: string)
  {
    forall k :: 0 <= k < |s| ==> IsDigit(s[k])
  }

  /** `str(n)` for a natural number: decimal digits, most significant first. */
  function NatToString(n: nat): (r: string)
    ensures |r| > 0 && AllDigits(r)
    ensures |r| > 1 ==> r[0] != '0'
  {
    if n < 10 then [DigitChar(n)] else NatToString(n / 10) + [DigitChar(n % 10)]
  }

  /** The value of a string of decimal digits (Python's `int(s)` on such a string). */
  function ParseNat(s: string): nat
    requires AllDigits(s)
  {
    if s == [] then 0 else 10 * ParseNat(s[..|s| - 1]) + DigitValue(s[|s| - 1])
  }

  /** `str(i)` for any Python int: an optional minus sign, then the digits. */
  function IntToString(i: int): (r: string)
    ensures |r| > 0
    ensures i < 0 <==> r[0] == '-'
    ensures i < 0 ==> AllDigits(r[1..]) && |r| > 1
    ensures i >= 0 ==> AllDigits(r)
    ensures IsIntText(r)
  {
    if i < 0 then "-" + NatToString(-i) else NatToString(i)
  }

  /** The most decimal digits `str` converts for an int: beyond this,
      Python's default `sys.get_int_max_str_digits()` makes it raise a
      `ValueError` (since 3.11, and in the 3.10.7 and 3.9.14 updates). */
  const MaxStrDigits := 4300

  /** `str(i)` succeeds: the digits, the sign not counted, are within the limit. */
  predicate StrFits(i: int)
  {
    |NatToString(if i < 0 then -i else i)| <= MaxStrDigits
  }

  /** The shape of `str(i)`: digits, optionally after one minus sign. */
  predicate IsIntText(s: string)
  {
    |s| > 0 && (AllDigits(s) || (s[0] == '-' && AllDigits(s[1..])))
  }

  /** `int(s)` on a string that `str` of an int could have produced. */
  function ParseInt(s: string): int
    requires IsIntText(s)
  {
    if s[0] == '-' then -(ParseNat(s[1..]) as int) else ParseNat(s)
  }

  lemma {:induction false} NatToStringRoundTrip(n: nat)
    ensures ParseNat(NatToString(n)) == n
  {
    if n >= 10 {
      NatToStringRoundTrip(n / 10);
      var s := NatToString(n);
      assert s[..|s| - 1] == NatToString(n / 10);
    }
  }

  /** Reading back the decimal text of an int gives the int. */
  lemma IntToStringRoundTrip(i: int)
    ensures ParseInt(IntToString(i)) == i
  {
    if i < 0 {
      NatToStringRoundTrip(-i);
      assert IntToString(i)[1..] == NatToString(-i);
    } else {
      NatToStringRoundTrip(i);
    }
  }
}
