/**
 * Character and string helpers shared by both programs, restricted to ASCII:
 * letter classes, case mapping, occurrence counting, substring containment,
 * the digit filter the client applies to replies, and the decimal rendering
 * of a counter.
 */
module Text {

  /** One octet of a message on the wire. */
  type byte = x: int | 0 <= x < 256

  predicate IsUpperLetter(c: char) { 'A' <= c <= 'Z' }

  predicate IsLowerLetter(c: char) { 'a' <= c <= 'z' }

  predicate IsLetter(c: char) { IsUpperLetter(c) || IsLowerLetter(c) }

  predicate IsDigit(c: char) { '0' <= c <= '9' }

  /** A non-empty string of letters only; the empty string is not alphabetic. */
  predicate IsAlpha(s: string)
  {
    |s| > 0 && forall i :: 0 <= i < |s| ==> IsLetter(s[i])
  }

  /** A string that upper-casing leaves as it is. */
  predicate IsUpperCase(s: string)
  {
    forall i :: 0 <= i < |s| ==> !IsLowerLetter(s[i])
  }

  function Upper(c: char): (u: char)
    ensures !IsLowerLetter(u)
    ensures IsLetter(c) <==> IsUpperLetter(u)
    ensures !IsLowerLetter(c) ==> u == c
  {
    if IsLowerLetter(c) then (c as int - 32) as char else c
  }

  function Lower(c: char): (l: char)
    ensures !IsUpperLetter(l)
    ensures IsLetter(c) <==> IsLowerLetter(l)
    ensures !IsUpperLetter(c) ==> l == c
  {
    if IsUpperLetter(c) then (c as int + 32) as char else c
  }

  /** Two upper-case letters that differ stay different in lower case. */
  lemma LowerInjectiveOnUpper(a: char, b: char)
    requires IsUpperLetter(a) && IsUpperLetter(b) && a != b
    ensures Lower(a) != Lower(b)
  {
  }

  function ToUpper(s: string): (u: string)
    ensures |u| == |s|
    ensures forall i :: 0 <= i < |s| ==> u[i] == Upper(s[i])
    ensures IsUpperCase(u)
  {
    seq(|s|, i requires 0 <= i < |s| => Upper(s[i]))
  }

  lemma UpperCaseUnchanged(s: string)
    requires IsUpperCase(s)
    ensures ToUpper(s) == s
  {
  }

  /** Number of occurrences of `x` in `s`, as list.count and str.count of one character. */
  function Count<T(==)>(s: seq<T>, x: T): nat
  {
    if |s| == 0 then 0 else Count(s[..|s| - 1], x) + (if s[|s| - 1] == x then 1 else 0)
  }

  lemma {:induction false} CountPositive<T>(s: seq<T>, x: T)
    ensures x in s <==> Count(s, x) > 0
    decreases |s|
  {
    if |s| > 0 {
      var front := s[..|s| - 1];
      CountPositive(front, x);
      assert s == front + [s[|s| - 1]];
    }
  }

  /** Overwriting one element moves one occurrence from the old value to the new one. */
  lemma {:induction false} CountUpdate<T>(s: seq<T>, i: nat, y: T, x: T)
    requires i < |s|
    ensures Count(s[i := y], x) + (if s[i] == x then 1 else 0)
         == Count(s, x) + (if y == x then 1 else 0)
    decreases |s|
  {
    var t := s[i := y];
    if i < |s| - 1 {
      assert t[..|t| - 1] == s[..|s| - 1][i := y];
      CountUpdate(s[..|s| - 1], i, y, x);
    } else {
      assert t[..|t| - 1] == s[..|s| - 1];
    }
  }

  lemma {:induction false} CountPrefix<T>(s: seq<T>, n: nat, x: T)
    requires n <= |s|
    ensures Count(s[..n], x) <= Count(s, x)
    decreases |s|
  {
    if n < |s| {
      var front := s[..|s| - 1];
      assert s[..n] == front[..n];
      CountPrefix(front, n, x);
    } else {
      assert s[..n] == s;
    }
  }

  /** `needle` sits in `hay` starting at index `i`. */
  predicate OccursAt(needle: string, hay: string, i: nat)
  {
    i + |needle| <= |hay| && hay[i..i + |needle|] == needle
  }

  /** Python's `needle in hay` on two strings: contiguous containment, true for the empty needle. */
  predicate IsSubstring(needle: string, hay: string)
  {
    exists i: nat | i <= |hay| :: OccursAt(needle, hay, i)
  }

  /** The characters of `s` that are decimal digits, in order. */
  function Digits(s: string): (d: string)
    ensures |d| <= |s|
    ensures forall i :: 0 <= i < |d| ==> IsDigit(d[i])
    ensures |d| == 0 <==> HasNoDigit(s)
  {
    if |s| == 0 then [] else (if IsDigit(s[0]) then [s[0]] else []) + Digits(s[1..])
  }

  predicate HasNoDigit(s: string)
  {
    forall i :: 0 <= i < |s| ==> !IsDigit(s[i])
  }

  lemma {:induction false} DigitsAppend(a: string, b: string)
    ensures Digits(a + b) == Digits(a) + Digits(b)
    decreases |a|
  {
    if |a| > 0 {
      assert (a + b)[1..] == a[1..] + b;
      DigitsAppend(a[1..], b);
    } else {
      assert a + b == b;
    }
  }

  lemma {:induction false} DigitsOfDigits(s: string)
    requires forall i :: 0 <= i < |s| ==> IsDigit(s[i])
    ensures Digits(s) == s
    decreases |s|
  {
    if |s| > 0 {
      DigitsOfDigits(s[1..]);
    }
  }

  lemma {:induction false} DigitsOfNoDigit(s: string)
    requires HasNoDigit(s)
    ensures Digits(s) == []
    decreases |s|
  {
    if |s| > 0 {
      DigitsOfNoDigit(s[1..]);
    }
  }

  /** A run of digits followed by digit-free text filters back to the run of digits. */
  lemma DigitsThenText(score: string, rest: string)
    requires forall i :: 0 <= i < |score| ==> IsDigit(score[i])
    requires HasNoDigit(rest)
    ensures Digits(score + rest) == score
  {
    DigitsAppend(score, rest);
    DigitsOfDigits(score);
    DigitsOfNoDigit(rest);
    assert score + [] == score;
  }

  function DigitChar(d: nat): (c: char)
    requires d < 10
    ensures IsDigit(c)
  {
    ('0' as int + d) as char
  }

  /** Python's `str(n)` for a non-negative integer: decimal, no leading zero. */
  function NatToString(n: nat): (s: string)
    ensures |s| > 0
    ensures forall i :: 0 <= i < |s| ==> IsDigit(s[i])
    ensures s[0] == '0' ==> n == 0
  {
    if n < 10 then [DigitChar(n)] else NatToString(n / 10) + [DigitChar(n % 10)]
  }

  /** The value of a string of decimal digits, read most significant digit first. */
  function DecimalValue(s: string): nat
    requires forall i :: 0 <= i < |s| ==> IsDigit(s[i])
  {
    if |s| == 0 then 0 else 10 * DecimalValue(s[..|s| - 1]) + DigitValue(s[|s| - 1])
  }

  function DigitValue(c: char): (d: nat)
    requires IsDigit(c)
    ensures d < 10 && DigitChar(d) == c
  {
    c as int - '0' as int
  }

  /** Reading the rendered counter back gives the counter: distinct counts render differently. */
  lemma {:induction false} DecimalRoundTrip(n: nat)
    ensures DecimalValue(NatToString(n)) == n
    decreases n
  {
    var s := NatToString(n);
    if n >= 10 {
      DecimalRoundTrip(n / 10);
      assert s[..|s| - 1] == NatToString(n / 10);
    }
  }
}
