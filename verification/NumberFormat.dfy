/** `NumberFormat` of gt_base.js: grouping digits, fixing decimals, and reading both back. The sign is
    grouped like a digit. The parsers collect signs, digits and points and leave the rest to JavaScript. */
module NumberFormat {
  import opened Division
  import opened Strings
  import opened Wrappers

  /** A number as `'' + value` spells it without an exponent: sign, integer part, fraction digits. */
  datatype Number = Number(negative: bool, whole: nat, fraction: string)

  predicate Valid(v: Number) {
    AllDigits(v.fraction)
  }

  /** `valueSegs[0]` */
  function IntSegment(v: Number): string {
    (if v.negative then "-" else "") + Decimal(v.whole)
  }

  function IndexOf(s: string, c: char): int {
    if s == "" then -1
    else if s[0] == c then 0
    else
      var k := IndexOf(s[1..], c);
      if k < 0 then -1 else k + 1
  }

  lemma {:induction false} IndexOfBound(s: string, c: char)
    ensures -1 <= IndexOf(s, c) < |s|
  {
    if s != "" {
      IndexOfBound(s[1..], c);
    }
  }

  /** The number of decimals the pattern asks for, -1 without a point. */
  function DecimalsOf(pattern: string): int {
    var point := IndexOf(pattern, '.');
    if point > -1 then |pattern| - point - 1 else point
  }

  /** The group length the pattern asks for; no grouping unless it is positive. */
  function GroupOf(pattern: string): int {
    var sep, point := IndexOf(pattern, ','), IndexOf(pattern, '.');
    if sep > -1 then (if point > -1 then point - sep - 1 else |pattern| - sep - 1) else sep
  }

  // ------------------------------------------------------------------- grouping

  /** What the loop puts before character `i`. */
  function Separator(s: string, n: nat, i: nat): string
    requires 0 < n && i <= |s|
  {
    if 0 < i && (|s| - i) % n == 0 then "," else ""
  }

  /** The grouped text of `s` from position `i` on. */
  function GroupFrom(s: string, n: nat, i: nat): string
    requires 0 < n && i <= |s|
    decreases |s| - i
  {
    if i == |s| then ""
    else Separator(s, n, i) + ([s[i]] + GroupFrom(s, n, i + 1))
  }

  function Without(s: string, c: char): string {
    if s == "" then "" else (if s[0] == c then "" else [s[0]]) + Without(s[1..], c)
  }

  lemma {:induction false} WithoutAppend(a: string, b: string, c: char)
    ensures Without(a + b, c) == Without(a, c) + Without(b, c)
  {
    if a == "" {
      assert a + b == b;
    } else {
      assert (a + b)[1..] == a[1..] + b;
      WithoutAppend(a[1..], b, c);
    }
  }

  lemma {:induction false} WithoutAbsent(s: string, c: char)
    requires c !in s
    ensures Without(s, c) == s
  {
    if s != "" {
      WithoutAbsent(s[1..], c);
    }
  }

  /** Removing the separators gives the digits back. */
  lemma {:induction false} UngroupedFrom(s: string, n: nat, i: nat)
    requires 0 < n && i <= |s| && ',' !in s
    ensures Without(GroupFrom(s, n, i), ',') == s[i..]
    decreases |s| - i
  {
    if i < |s| {
      var head := Separator(s, n, i);
      WithoutAppend(head, [s[i]] + GroupFrom(s, n, i + 1), ',');
      WithoutAppend([s[i]], GroupFrom(s, n, i + 1), ',');
      UngroupedFrom(s, n, i + 1);
      assert Without(head, ',') == "";
      assert Without([s[i]], ',') == [s[i]] by { WithoutAbsent([s[i]], ','); }
      assert s[i..] == [s[i]] + s[i + 1..];
    }
  }

  /** The groups, cut from the right: all but the first have exactly `n` characters. */
  function Groups(s: string, n: nat): (gs: seq<string>)
    requires 0 < n
    ensures gs != []
    ensures forall k :: 1 <= k < |gs| ==> |gs[k]| == n
    ensures |gs[0]| <= n && (s != "" ==> gs[0] != "")
  {
    if |s| <= n then [s] else Groups(s[..|s| - n], n) + [s[|s| - n..]]
  }

  function Joined(gs: seq<string>): string
    requires gs != []
  {
    if |gs| == 1 then gs[0] else Joined(gs[..|gs| - 1]) + ("," + gs[|gs| - 1])
  }

  /** Within the last `n` characters no separator falls. */
  lemma {:induction false} LastGroup(s: string, n: nat, i: nat)
    requires 0 < n && i <= |s| && (|s| - i < n || (i == 0 && |s| <= n))
    ensures GroupFrom(s, n, i) == s[i..]
    decreases |s| - i
  {
    if i < |s| {
      LastGroup(s, n, i + 1);
      if 0 < i { SmallModulus(|s| - i, n); }
      assert s[i..] == [s[i]] + s[i + 1..];
    }
  }

  lemma SeparatorOfPrefix(s: string, n: nat, i: nat)
    requires 0 < n < |s| && i < |s| - n
    ensures Separator(s, n, i) == Separator(s[..|s| - n], n, i)
  {
    ShiftModulus(|s| - n - i, n);
  }

  lemma LastGroupCut(s: string, n: nat)
    requires 0 < n < |s|
    ensures var m := |s| - n; GroupFrom(s, n, m) == GroupFrom(s[..m], n, m) + ("," + s[m..])
  {
    var m := |s| - n;
    LastGroup(s, n, m + 1);
    ShiftModulus(0, n);
    SmallModulus(0, n);
    assert s[m..] == [s[m]] + s[m + 1..];
    assert Separator(s, n, m) == ",";
    assert GroupFrom(s[..m], n, m) == "";
  }

  /** Cutting the last group off. */
  lemma {:induction false} CutLastGroup(s: string, n: nat, i: nat)
    requires 0 < n < |s| && i <= |s| - n
    ensures GroupFrom(s, n, i) == GroupFrom(s[..|s| - n], n, i) + ("," + s[|s| - n..])
    decreases |s| - i
  {
    var m := |s| - n;
    if i == m {
      LastGroupCut(s, n);
    } else {
      CutLastGroup(s, n, i + 1);
      SeparatorOfPrefix(s, n, i);
      AssociateGroup(Separator(s, n, i), [s[i]], GroupFrom(s[..m], n, i + 1), "," + s[m..]);
    }
  }

  lemma AssociateGroup(a: string, b: string, c: string, d: string)
    ensures a + (b + (c + d)) == (a + (b + c)) + d
  {
  }

  /** The loop from the right is cutting groups from the right and joining them. */
  lemma {:induction false} GroupingIsJoining(s: string, n: nat)
    requires 0 < n
    ensures GroupFrom(s, n, 0) == Joined(Groups(s, n))
  {
    if |s| <= n {
      LastGroup(s, n, 0);
      assert s[0..] == s;
    } else {
      var m := |s| - n;
      CutLastGroup(s, n, 0);
      GroupingIsJoining(s[..m], n);
      assert (Groups(s[..m], n) + [s[m..]])[..|Groups(s[..m], n)|] == Groups(s[..m], n);
    }
  }

  // ----------------------------------------------------------------- formatting

  /** The first `k` fraction digits, filled up with zeros. */
  function Fixed(fraction: string, k: nat): (r: string)
    ensures |r| == k
  {
    seq(k, j requires 0 <= j < k => if j < |fraction| then fraction[j] else '0')
  }

  function Grouped(s: string, n: int): string {
    if 0 < n then GroupFrom(s, n, 0) else s
  }

  function Format(v: Number, pattern: string): string {
    var whole := Grouped(IntSegment(v), GroupOf(pattern));
    var k := DecimalsOf(pattern);
    if 0 < k then whole + ("." + Fixed(v.fraction, k)) else whole
  }

  /** `format`, with the loop that builds the integer part from the right. */
  method FormatNumber(v: Number, pattern: string) returns (result: string)
    ensures result == Format(v, pattern)
  {
    var point, sep := DecimalsOf(pattern), GroupOf(pattern);
    var intSeg := IntSegment(v);
    result := "";
    if sep > 0 {
      var i := |intSeg|;
      while i > 0
        invariant 0 <= i <= |intSeg| && result == GroupFrom(intSeg, sep, i)
      {
        i := i - 1;
        result := [intSeg[i]] + result;
        if i > 0 && (|intSeg| - i) % sep == 0 {
          result := "," + result;
        }
      }
    } else {
      result := intSeg;
    }
    if point > 0 {
      ghost var whole := result;
      result := result + ".";
      for j := 0 to point
        invariant result == whole + ("." + Fixed(v.fraction, j))
      {
        if j < |v.fraction| {
          result := result + [v.fraction[j]];
        } else {
          result := result + "0";
        }
        assert Fixed(v.fraction, j + 1) == Fixed(v.fraction, j) + [if j < |v.fraction| then v.fraction[j] else '0'];
      }
    }
  }

  // -------------------------------------------------------------------- parsing

  /** `[+\-\d]` */
  predicate IsSigned(c: char) {
    c == '+' || c == '-' || IsDigit(c)
  }

  /** What `parseInt` collects: signs and digits up to the first point. */
  function KeepInt(s: string): string {
    if s == "" || s[0] == '.' then ""
    else (if IsSigned(s[0]) then [s[0]] else "") + KeepInt(s[1..])
  }

  /** What `parseFloat` collects. */
  function KeepFloat(s: string): string {
    if s == "" then "" else (if IsSigned(s[0]) || s[0] == '.' then [s[0]] else "") + KeepFloat(s[1..])
  }

  function SignLen(s: string): nat {
    if s != "" && (s[0] == '+' || s[0] == '-') then 1 else 0
  }

  function SignOf(s: string): int {
    if s != "" && s[0] == '-' then -1 else 1
  }

  /** The global `parseInt`: sign and leading digits; None for NaN. Minus zero is zero here. */
  function JsParseInt(s: string): Option<int> {
    var t := s[SignLen(s)..];
    var n := DigitRun(t);
    if n == 0 then None else Some(SignOf(s) * NatOf(t[..n]))
  }

  /** mantissa / 10^scale */
  datatype Ratio = Ratio(mantissa: int, scale: nat)

  /** The global `parseFloat` without exponents: sign, digits, and a point with further digits. */
  function JsParseFloat(s: string): Option<Ratio> {
    var t := s[SignLen(s)..];
    var n := DigitRun(t);
    var rest := t[n..];
    var m := if rest != "" && rest[0] == '.' then DigitRun(rest[1..]) else 0;
    var decimals := if m == 0 then "" else rest[1..][..m];
    if n + m == 0 then None else Some(Ratio(SignOf(s) * NatOf(t[..n] + decimals), m))
  }

  function ParseInt(s: string): Option<int> {
    if s == "" then None else JsParseInt(KeepInt(s))
  }

  function ParseFloat(s: string): Option<Ratio> {
    if s == "" then None else JsParseFloat(KeepFloat(s))
  }

  /** The collecting loop of `parseInt`. */
  method ParseIntLoop(value: string) returns (r: Option<int>)
    ensures r == ParseInt(value)
  {
    if value == "" {
      return None;
    }
    var kept := "";
    var i := 0;
    while i < |value|
      invariant 0 <= i <= |value| && kept + KeepInt(value[i..]) == KeepInt(value)
    {
      var c := value[i];
      if c == '.' {
        break;
      }
      assert value[i..][1..] == value[i + 1..];
      if IsSigned(c) {
        assert kept + ([c] + KeepInt(value[i + 1..])) == kept + [c] + KeepInt(value[i + 1..]);
        kept := kept + [c];
      }
      i := i + 1;
    }
    assert kept == KeepInt(value);
    return JsParseInt(kept);
  }

  lemma KeepFloatNext(kept: string, value: string, i: nat)
    requires i < |value|
    ensures var rest := KeepFloat(value[i + 1..]);
            kept + KeepFloat(value[i..])
            == if IsSigned(value[i]) || value[i] == '.' then (kept + [value[i]]) + rest else kept + rest
  {
    assert value[i..][1..] == value[i + 1..];
    Associate(kept, [value[i]], KeepFloat(value[i + 1..]));
    assert "" + KeepFloat(value[i + 1..]) == KeepFloat(value[i + 1..]);
  }

  /** The collecting loop of `parseFloat`. */
  method ParseFloatLoop(value: string) returns (r: Option<Ratio>)
    ensures r == ParseFloat(value)
  {
    if value == "" {
      return None;
    }
    var kept := "";
    for i := 0 to |value|
      invariant kept + KeepFloat(value[i..]) == KeepFloat(value)
    {
      var c := value[i];
      KeepFloatNext(kept, value, i);
      if IsSigned(c) || c == '.' {
        kept := kept + [c];
      }
    }
    assert value[|value|..] == "" && kept + "" == kept;
    return JsParseFloat(kept);
  }

  predicate IsNoise(c: char) {
    c !in "+-.0123456789"
  }

  lemma {:induction false} KeepWithoutNoise(a: string, c: char, b: string)
    requires IsNoise(c)
    ensures KeepInt(a + [c] + b) == KeepInt(a + b) && KeepFloat(a + [c] + b) == KeepFloat(a + b)
  {
    if a == "" {
      assert [c] + b == a + [c] + b && a + b == b && ([c] + b)[1..] == b;
    } else {
      assert (a + [c] + b)[1..] == a[1..] + [c] + b && (a + b)[1..] == a[1..] + b;
      KeepWithoutNoise(a[1..], c, b);
    }
  }

  /** Whatever is no sign, digit or point is ignored wherever it stands. */
  lemma NoiseIsIgnored(a: string, c: char, b: string)
    requires IsNoise(c)
    ensures ParseInt(a + [c] + b) == ParseInt(a + b) && ParseFloat(a + [c] + b) == ParseFloat(a + b)
  {
    KeepWithoutNoise(a, c, b);
  }

  lemma {:induction false} KeepBeforePoint(a: string, b: string)
    ensures KeepInt(a + "." + b) == KeepInt(a)
  {
    if a == "" {
      assert a + "." + b == "." + b;
    } else {
      assert (a + "." + b)[1..] == a[1..] + "." + b;
      KeepBeforePoint(a[1..], b);
    }
  }

  /** `parseInt` ignores the point and what follows it. */
  lemma PointEndsInteger(a: string, b: string)
    ensures ParseInt(a + "." + b) == ParseInt(a)
  {
    KeepBeforePoint(a, b);
  }

  // ---------------------------------------------------------------- round trips

  /** Signs, digits and separators. */
  predicate WholeText(s: string) {
    forall i :: 0 <= i < |s| ==> IsSigned(s[i]) || s[i] == ','
  }

  lemma {:induction false} KeepWholeInt(x: string, y: string)
    requires WholeText(x)
    ensures KeepInt(x + y) == Without(x, ',') + KeepInt(y)
  {
    if x == "" {
      assert x + y == y;
    } else {
      assert (x + y)[1..] == x[1..] + y && (x + y)[0] == x[0];
      KeepWholeInt(x[1..], y);
      Associate(if x[0] == ',' then "" else [x[0]], Without(x[1..], ','), KeepInt(y));
    }
  }

  lemma {:induction false} KeepWholeFloat(x: string, y: string)
    requires WholeText(x)
    ensures KeepFloat(x + y) == Without(x, ',') + KeepFloat(y)
  {
    if x == "" {
      assert x + y == y;
    } else {
      assert (x + y)[1..] == x[1..] + y && (x + y)[0] == x[0];
      KeepWholeFloat(x[1..], y);
      Associate(if x[0] == ',' then "" else [x[0]], Without(x[1..], ','), KeepFloat(y));
    }
  }

  lemma KeepWhole(x: string, y: string)
    requires WholeText(x)
    ensures KeepInt(x + y) == Without(x, ',') + KeepInt(y)
    ensures KeepFloat(x + y) == Without(x, ',') + KeepFloat(y)
  {
    KeepWholeInt(x, y);
    KeepWholeFloat(x, y);
  }

  lemma {:induction false} GroupFromIsWhole(s: string, n: nat, i: nat)
    requires 0 < n && i <= |s| && forall k :: 0 <= k < |s| ==> IsSigned(s[k])
    ensures WholeText(GroupFrom(s, n, i))
    decreases |s| - i
  {
    if i < |s| {
      GroupFromIsWhole(s, n, i + 1);
    }
  }

  /** Grouping loses nothing. */
  lemma UngroupWhole(v: Number, n: int)
    ensures WholeText(Grouped(IntSegment(v), n))
    ensures Without(Grouped(IntSegment(v), n), ',') == IntSegment(v)
  {
    var s := IntSegment(v);
    if 0 < n {
      GroupFromIsWhole(s, n, 0);
      UngroupedFrom(s, n, 0);
      assert s[0..] == s;
    } else {
      WithoutAbsent(s, ',');
    }
  }

  /** Splits the sign off a spelled number. */
  lemma SignSplits(v: Number, rest: string)
    ensures var t := IntSegment(v) + rest;
            && SignLen(t) == (if v.negative then 1 else 0)
            && SignOf(t) == (if v.negative then -1 else 1)
            && t[SignLen(t)..] == Decimal(v.whole) + rest
  {
    var t := IntSegment(v) + rest;
    assert t[0] == IntSegment(v)[0];
  }

  function Sign(v: Number): int {
    if v.negative then -1 else 1
  }

  /** `parseInt` of what `format` printed, under any pattern, is the number cut at its point. */
  lemma ParseIntOfFormat(v: Number, pattern: string)
    requires Valid(v)
    ensures ParseInt(Format(v, pattern)) == Some(Sign(v) * v.whole)
  {
    var whole := Grouped(IntSegment(v), GroupOf(pattern));
    var k := DecimalsOf(pattern);
    var rest := if 0 < k then "." + Fixed(v.fraction, k) else "";
    UngroupWhole(v, GroupOf(pattern));
    KeepWhole(whole, rest);
    assert Format(v, pattern) == whole + rest;
    assert KeepInt(rest) == "";
    assert IntSegment(v) + "" == IntSegment(v);
    SignSplits(v, "");
    var digits := Decimal(v.whole);
    assert digits + "" == digits;
    RunOfDigits(digits, "");
    assert digits[..|digits|] == digits;
    NatOfDecimal(v.whole);
  }

  function Pow10(k: nat): (p: nat)
    ensures 0 < p
  {
    if k == 0 then 1 else 10 * Pow10(k - 1)
  }

  lemma {:induction false} KeepFraction(digits: string)
    requires AllDigits(digits)
    ensures KeepFloat(digits) == digits
  {
    if digits != "" {
      KeepFraction(digits[1..]);
    }
  }

  lemma FixedIsDigits(fraction: string, k: nat)
    requires AllDigits(fraction)
    ensures AllDigits(Fixed(fraction, k))
  {
  }

  /** The digits that `format` leaves of a number, as one integer. */
  function Mantissa(v: Number, k: nat): int
    requires Valid(v)
  {
    FixedIsDigits(v.fraction, k);
    NatOf(Decimal(v.whole) + Fixed(v.fraction, k))
  }

  /** All its digits, as one integer. */
  function FullMantissa(v: Number): int
    requires Valid(v)
  {
    NatOf(Decimal(v.whole) + v.fraction)
  }

  lemma ReadRatio(v: Number, k: nat)
    requires Valid(v)
    ensures JsParseFloat(IntSegment(v) + (if 0 < k then "." + Fixed(v.fraction, k) else ""))
         == Some(Ratio(Sign(v) * Mantissa(v, k), k))
  {
    var digits, decimals := Decimal(v.whole), Fixed(v.fraction, k);
    var rest := if 0 < k then "." + decimals else "";
    FixedIsDigits(v.fraction, k);
    SignSplits(v, rest);
    RunOfDigits(digits, rest);
    assert (digits + rest)[..|digits|] == digits && (digits + rest)[|digits|..] == rest;
    if 0 < k {
      assert rest[1..] == decimals && decimals + "" == decimals;
      RunOfDigits(decimals, "");
      assert decimals[..k] == decimals;
    }
  }

  lemma {:induction false} NatOfAppend(a: string, b: string)
    requires AllDigits(a) && AllDigits(b)
    ensures NatOf(a + b) == NatOf(a) * Pow10(|b|) + NatOf(b)
    ensures NatOf(b) < Pow10(|b|)
  {
    if b == "" {
      assert a + b == a;
    } else {
      var front := b[..|b| - 1];
      NatOfAppend(a, front);
      assert (a + b)[..|a + b| - 1] == a + front;
      TimesTen(NatOf(a), Pow10(|front|), NatOf(front));
    }
  }

  lemma TimesTen(a: int, p: int, b: int)
    ensures (a * p + b) * 10 == a * (10 * p) + b * 10
  {
  }

  lemma {:induction false} Pow10Add(a: nat, b: nat)
    ensures Pow10(a + b) == Pow10(a) * Pow10(b)
  {
    if a != 0 {
      Pow10Add(a - 1, b);
    }
  }

  lemma {:induction false} Zeros(s: string)
    requires forall i :: 0 <= i < |s| ==> s[i] == '0'
    ensures AllDigits(s) && NatOf(s) == 0
  {
    if s != "" {
      Zeros(s[..|s| - 1]);
    }
  }

  /** mantissa / 10^k is the number truncated to k decimals: at most it, and less than one unit
      of the last place below it. */
  predicate IsTruncation(mantissa: int, k: nat, full: int, places: nat) {
    mantissa * Pow10(places) <= full * Pow10(k) < (mantissa + 1) * Pow10(places)
  }

  lemma Expand(t: int, p: int, q: int, rest: int)
    ensures (t * p + rest) * q == t * (p * q) + rest * q
  {
    assert (t * p) * q == t * (p * q);
  }

  lemma Next(t: int, x: int)
    ensures (t + 1) * x == t * x + x
  {
  }

  lemma Scale(a: int, b: int, q: int)
    requires a <= b && 0 <= q
    ensures a * q <= b * q
  {
  }

  lemma CutScale(t: int, rest: int, k: nat, extra: nat)
    requires 0 <= rest < Pow10(extra)
    ensures IsTruncation(t, k, t * Pow10(extra) + rest, k + extra)
  {
    var p, q := Pow10(extra), Pow10(k);
    Pow10Add(extra, k);
    Expand(t, p, q, rest);
    Next(t, p * q);
    Scale(0, rest, q);
    Scale(rest, p - 1, q);
    Next(p - 1, q);
  }

  lemma PadScale(full: int, places: nat, extra: nat)
    ensures IsTruncation(full * Pow10(extra), places + extra, full, places)
  {
    var p, q := Pow10(extra), Pow10(places);
    Pow10Add(extra, places);
    Expand(full, p, q, 0);
    Next(full * p, q);
  }

  lemma MantissaIsTruncation(v: Number, k: nat)
    requires Valid(v)
    ensures IsTruncation(Mantissa(v, k), k, FullMantissa(v), |v.fraction|)
  {
    FixedIsDigits(v.fraction, k);
    if k <= |v.fraction| {
      CutIsTruncation(Decimal(v.whole), v.fraction, k);
    } else {
      PadIsTruncation(Decimal(v.whole), v.fraction, k);
    }
  }

  lemma CutIsTruncation(whole: string, fraction: string, k: nat)
    requires AllDigits(whole) && AllDigits(fraction) && k <= |fraction|
    ensures AllDigits(whole + Fixed(fraction, k))
    ensures IsTruncation(NatOf(whole + Fixed(fraction, k)), k, NatOf(whole + fraction), |fraction|)
  {
    var cut, rest := fraction[..k], fraction[k..];
    assert Fixed(fraction, k) == cut;
    assert whole + fraction == (whole + cut) + rest;
    NatOfAppend(whole + cut, rest);
    CutScale(NatOf(whole + cut), NatOf(rest), k, |fraction| - k);
  }

  lemma PadIsTruncation(whole: string, fraction: string, k: nat)
    requires AllDigits(whole) && AllDigits(fraction) && |fraction| < k
    ensures AllDigits(whole + Fixed(fraction, k))
    ensures IsTruncation(NatOf(whole + Fixed(fraction, k)), k, NatOf(whole + fraction), |fraction|)
  {
    var zeros := seq(k - |fraction|, _ => '0');
    assert Fixed(fraction, k) == fraction + zeros;
    assert whole + Fixed(fraction, k) == (whole + fraction) + zeros;
    Zeros(zeros);
    NatOfAppend(whole + fraction, zeros);
    PadScale(NatOf(whole + fraction), |fraction|, k - |fraction|);
  }

  /** `parseFloat` of a number formatted with k decimals is the number truncated to k decimals. */
  lemma ParseFloatOfFormat(v: Number, pattern: string)
    requires Valid(v)
    ensures var k := if 0 < DecimalsOf(pattern) then DecimalsOf(pattern) else 0;
            && ParseFloat(Format(v, pattern)) == Some(Ratio(Sign(v) * Mantissa(v, k), k))
            && IsTruncation(Mantissa(v, k), k, FullMantissa(v), |v.fraction|)
  {
    var whole := Grouped(IntSegment(v), GroupOf(pattern));
    var k := if 0 < DecimalsOf(pattern) then DecimalsOf(pattern) else 0;
    var rest := if 0 < k then "." + Fixed(v.fraction, k) else "";
    UngroupWhole(v, GroupOf(pattern));
    KeepWhole(whole, rest);
    assert Format(v, pattern) == whole + rest;
    FixedIsDigits(v.fraction, k);
    KeepFraction(Fixed(v.fraction, k));
    assert KeepFloat(rest) == rest by {
      if 0 < k { assert rest[1..] == Fixed(v.fraction, k); }
    }
    ReadRatio(v, k);
    MantissaIsTruncation(v, k);
  }

  /** The grouped integer part: groups of the asked length after the first, nothing lost. */
  lemma GroupedShape(v: Number, n: nat)
    requires 0 < n
    ensures Grouped(IntSegment(v), n) == Joined(Groups(IntSegment(v), n))
    ensures Without(Grouped(IntSegment(v), n), ',') == IntSegment(v)
    ensures var gs := Groups(IntSegment(v), n);
            |gs[0]| == (|IntSegment(v)| - 1) % n + 1 && forall k :: 1 <= k < |gs| ==> |gs[k]| == n
  {
    GroupingIsJoining(IntSegment(v), n);
    FirstGroup(IntSegment(v), n);
    UngroupWhole(v, n);
  }

  lemma {:induction false} IndexOfAt(a: string, c: char, b: string)
    requires c !in a
    ensures IndexOf(a + [c] + b, c) == |a|
  {
    if a != "" {
      IndexOfAt(a[1..], c, b);
      assert (a + [c] + b)[1..] == a[1..] + [c] + b;
    }
  }

  lemma {:induction false} IndexOfAbsent(s: string, c: char)
    requires c !in s
    ensures IndexOf(s, c) == -1
  {
    if s != "" {
      IndexOfAbsent(s[1..], c);
    }
  }

  /** What a pattern asks for: the group length stands between separator and point, the number of
      decimals after the point. */
  lemma PatternIsRead(head: string, group: string, decimals: string)
    requires ',' !in head && '.' !in head && '.' !in group
    ensures GroupOf(head + "," + group + "." + decimals) == |group|
    ensures DecimalsOf(head + "," + group + "." + decimals) == |decimals|
    ensures GroupOf(head + "," + group) == |group| && DecimalsOf(head + "," + group) == -1
  {
    IndexOfAt(head, ',', group);
    IndexOfAbsent(head + "," + group, '.');
    IndexOfAt(head, ',', group + "." + decimals);
    IndexOfAt(head + "," + group, '.', decimals);
    assert head + "," + (group + "." + decimals) == head + "," + group + "." + decimals;
  }

  /** The whole text under a pattern with a separator: groups, unless none is asked for, and after a point
      the asked number of decimals. */
  lemma FormattedShape(v: Number, head: string, group: string, decimals: string)
    requires ',' !in head && '.' !in head && '.' !in group
    ensures var whole := if group == "" then IntSegment(v) else Joined(Groups(IntSegment(v), |group|));
            && Format(v, head + "," + group) == whole
            && Format(v, head + "," + group + "." + decimals)
               == if decimals == "" then whole else whole + ("." + Fixed(v.fraction, |decimals|))
  {
    PatternIsRead(head, group, decimals);
    if group != "" { GroupingIsJoining(IntSegment(v), |group|); }
  }

  /** Under a pattern without a separator before the point nothing is grouped. */
  lemma UngroupedShape(v: Number, head: string, decimals: string)
    requires ',' !in head && '.' !in head
    ensures Format(v, head) == IntSegment(v)
    ensures Format(v, head + "." + decimals)
         == if decimals == "" then IntSegment(v) else IntSegment(v) + ("." + Fixed(v.fraction, |decimals|))
  {
    var pattern := head + "." + decimals;
    IndexOfAbsent(head, ',');
    IndexOfAbsent(head, '.');
    IndexOfAt(head, '.', decimals);
    IndexOfPast(head + ".", ',', decimals);
  }

  lemma {:induction false} IndexOfPast(a: string, c: char, b: string)
    requires c !in a
    ensures var k := IndexOf(a + b, c); k == -1 || |a| <= k
  {
    if a == "" {
      IndexOfBound(b, c);
    } else {
      assert (a + b)[1..] == a[1..] + b;
      IndexOfPast(a[1..], c, b);
    }
  }

  /** Every pattern has one of these four forms. */
  lemma PatternForms(pattern: string) returns (head: string, group: string, decimals: string)
    ensures ',' !in head && '.' !in head && '.' !in group
    ensures || pattern == head || pattern == head + "." + decimals
            || pattern == head + "," + group || pattern == head + "," + group + "." + decimals
  {
    head, group, decimals := pattern, "", "";
    if '.' in pattern {
      var k := FirstOf(pattern, '.');
      head, decimals := pattern[..k], pattern[k + 1..];
    }
    ghost var whole := head;
    if ',' in head {
      var k := FirstOf(head, ',');
      head, group := whole[..k], whole[k + 1..];
    }
  }

  lemma {:induction false} FirstOf(s: string, c: char) returns (k: nat)
    requires c in s
    ensures k < |s| && c !in s[..k] && s == s[..k] + [c] + s[k + 1..]
  {
    if s[0] == c {
      k := 0;
    } else {
      var j := FirstOf(s[1..], c);
      k := j + 1;
      assert s[..k] == [s[0]] + s[1..][..j] && s[k + 1..] == s[1..][j + 1..];
    }
  }

  /** A first group that is the sign alone. */
  lemma LoneSignLength(v: Number, n: nat)
    requires 0 < n
    ensures var g := Groups(IntSegment(v), n)[0]; g == "-" <==> v.negative && |g| == 1
  {
    var s := IntSegment(v);
    var g := Groups(s, n)[0];
    FirstGroup(s, n);
    assert g == s[..|g|] && g[0] == s[0];
  }

  /** The sign counts as a digit: exactly then does it stand alone before a separator. */
  lemma LoneSign(v: Number, n: nat)
    requires 0 < n
    ensures Groups(IntSegment(v), n)[0] == "-" <==> v.negative && |Decimal(v.whole)| % n == 0
  {
    LoneSignLength(v, n);
    FirstGroup(IntSegment(v), n);
  }

  lemma {:induction false} FirstGroup(s: string, n: nat)
    requires 0 < n && s != ""
    ensures var g := Groups(s, n)[0]; g <= s && |g| == (|s| - 1) % n + 1
  {
    if n < |s| {
      FirstGroup(s[..|s| - n], n);
      ShiftModulus(|s| - n - 1, n);
    } else {
      SmallModulus(|s| - 1, n);
    }
  }
}
