/** JavaScript string operations that several components use, and decimal numerals.

    `Replace` is `s.replace(pattern, value)` with a string for a pattern: it replaces the first
    occurrence only, and the lemmas say where that is, for a pattern whose first character does not
    come again in it. `Substring` is `s.substring` with bounds cut to the string. */
module Strings {

  predicate IsDigit(c: char) {
    '0' <= c <= '9'
  }

  predicate AllDigits(s: string) {
    forall i :: 0 <= i < |s| ==> IsDigit(s[i])
  }

  /** Length of the longest prefix of digits. */
  function DigitRun(s: string): (n: nat)
    ensures n <= |s| && AllDigits(s[..n])
  {
    if s != "" && IsDigit(s[0]) then
      assert s[..1 + DigitRun(s[1..])] == [s[0]] + s[1..][..DigitRun(s[1..])];
      1 + DigitRun(s[1..])
    else 0
  }

  lemma {:induction false} RunOfDigits(digits: string, rest: string)
    requires AllDigits(digits) && (rest == "" || !IsDigit(rest[0]))
    ensures DigitRun(digits + rest) == |digits|
  {
    if digits == "" {
      assert digits + rest == rest;
    } else {
      assert (digits + rest)[1..] == digits[1..] + rest;
      RunOfDigits(digits[1..], rest);
    }
  }

  /** The number that a run of digits denotes; the empty run denotes 0. */
  function NatOf(s: string): (n: int)
    requires AllDigits(s)
    ensures 0 <= n
  {
    if s == [] then 0 else NatOf(s[..|s| - 1]) * 10 + (s[|s| - 1] as int - '0' as int)
  }

  function Digit(d: nat): (c: char)
    requires d < 10
    ensures IsDigit(c) && c as int - '0' as int == d
  {
    '0' + d as char
  }

  /** `'' + n` */
  function Decimal(n: nat): (s: string)
    ensures s != "" && AllDigits(s)
  {
    if n < 10 then [Digit(n)] else Decimal(n / 10) + [Digit(n % 10)]
  }

  lemma {:induction false} NatOfDecimal(n: nat)
    ensures NatOf(Decimal(n)) == n
    ensures 0 < n ==> Decimal(n)[0] != '0'
  {
    var s := Decimal(n);
    if n < 10 {
      assert s[..0] == "" && s[0] as int - '0' as int == n;
    } else {
      NatOfDecimal(n / 10);
      assert s[..|s| - 1] == Decimal(n / 10);
      assert s[0] == Decimal(n / 10)[0];
    }
  }

  lemma Associate(a: string, b: string, c: string)
    ensures a + b + c == a + (b + c)
  {
  }

  /** `s.replace(pattern, value)` for a plain pattern: the first occurrence only. */
  function Replace(s: string, pattern: string, value: string): string {
    if pattern <= s then value + s[|pattern|..]
    else if s == "" then ""
    else [s[0]] + Replace(s[1..], pattern, value)
  }

  /** Text without the first character of the pattern is passed over. */
  lemma {:induction false} ReplaceAfter(x: string, y: string, pattern: string, value: string)
    requires pattern != "" && forall i :: 0 <= i < |x| ==> x[i] != pattern[0]
    ensures Replace(x + y, pattern, value) == x + Replace(y, pattern, value)
  {
    if x == "" {
      assert x + y == y;
    } else {
      assert (x + y)[1..] == x[1..] + y && (x + y)[0] == x[0];
      ReplaceAfter(x[1..], y, pattern, value);
    }
  }

  lemma ReplaceHere(pattern: string, y: string, value: string)
    ensures Replace(pattern + y, pattern, value) == value + y
  {
    assert (pattern + y)[|pattern|..] == y;
  }

  predicate Occurs(pattern: string, s: string) {
    pattern <= s || (s != "" && Occurs(pattern, s[1..]))
  }

  /** The first character of the pattern is nowhere else in it. */
  predicate StartsOnce(pattern: string) {
    pattern != "" && forall k :: 0 < k < |pattern| ==> pattern[k] != pattern[0]
  }

  lemma ReplaceLater(c: char, s: string, pattern: string, value: string)
    requires !(pattern <= [c] + s)
    ensures Replace([c] + s, pattern, value) == [c] + Replace(s, pattern, value)
  {
    assert ([c] + s)[1..] == s;
  }

  lemma NoOverlap(x: string, pattern: string, y: string)
    requires x != "" && StartsOnce(pattern) && pattern <= x + (pattern + y)
    ensures pattern <= x
  {
    var s := x + (pattern + y);
    assert s[|x|] == pattern[0];
    assert |pattern| <= |x| ==> x[..|pattern|] == s[..|pattern|];
  }

  /** A pattern that does not occur before a place is replaced there. */
  lemma {:induction false} ReplaceFirst(x: string, pattern: string, y: string, value: string)
    requires StartsOnce(pattern) && !Occurs(pattern, x)
    ensures Replace(x + (pattern + y), pattern, value) == x + value + y
  {
    var here := pattern + y;
    if x == "" {
      ReplaceHere(pattern, y, value);
      assert x + here == here && x + value + y == value + y;
    } else {
      var c, tail := x[0], x[1..];
      assert x == [c] + tail;
      Associate([c], tail, here);
      if pattern <= x + here { NoOverlap(x, pattern, y); }
      ReplaceLater(c, tail + here, pattern, value);
      ReplaceFirst(tail, pattern, y, value);
      Associate([c], tail, value);
      Associate([c], tail + value, y);
    }
  }

  /** Replacing is about one place, where the pattern stands. */
  lemma {:induction false} ReplacePlace(s: string, pattern: string, value: string) returns (q: nat)
    requires Occurs(pattern, s)
    ensures q + |pattern| <= |s| && s[q..q + |pattern|] == pattern
    ensures Replace(s, pattern, value) == s[..q] + value + s[q + |pattern|..]
  {
    if pattern <= s {
      q := 0;
      assert s[..0] + value == value;
    } else {
      var k := ReplacePlace(s[1..], pattern, value);
      q := k + 1;
      assert s[q..q + |pattern|] == s[1..][k..k + |pattern|];
      assert s[..q] == [s[0]] + s[1..][..k] && s[q + |pattern|..] == s[1..][k + |pattern|..];
      Associate([s[0]], s[1..][..k] + value, s[q + |pattern|..]);
      Associate([s[0]], s[1..][..k], value);
    }
  }

  lemma {:induction false} ReplaceNowhere(s: string, pattern: string, value: string)
    requires !Occurs(pattern, s)
    ensures Replace(s, pattern, value) == s
  {
    if s != "" {
      ReplaceNowhere(s[1..], pattern, value);
    }
  }

  /** A pattern that occurs before a place is replaced before it. */
  lemma {:induction false} ReplaceInside(x: string, pattern: string, y: string, value: string)
    requires StartsOnce(pattern) && Occurs(pattern, x)
    ensures Replace(x + (pattern + y), pattern, value) == Replace(x, pattern, value) + (pattern + y)
  {
    var here := pattern + y;
    if pattern <= x {
      assert (x + here)[|pattern|..] == x[|pattern|..] + here;
      Associate(value, x[|pattern|..], here);
      assert pattern <= x + here;
    } else {
      var c, tail := x[0], x[1..];
      assert x == [c] + tail;
      Associate([c], tail, here);
      if pattern <= x + here { NoOverlap(x, pattern, y); }
      ReplaceLater(c, tail + here, pattern, value);
      ReplaceInside(tail, pattern, y, value);
      Associate([c], Replace(tail, pattern, value), here);
    }
  }

  /** `s.substring(from, to)` for from <= to: bounds beyond the end mean the end. */
  function Substring(s: string, from: nat, to: nat): string
    requires from <= to
  {
    var lo := if from < |s| then from else |s|;
    var hi := if to < |s| then to else |s|;
    s[lo..hi]
  }
}
