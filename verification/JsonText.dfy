/** UTF-16 code units, the character classes json2.js distinguishes, hexadecimal
    escapes, and the number grammar of RFC 4627 section 2.4.

    A text is a sequence of integers below 65536, since JavaScript strings may hold lone surrogates,
    which Dafny's characters exclude. The lemmas about prefixes of numbers say that a number is read
    to its end whatever legal continuation follows it, and which units it is made of. */
module JsonText {

  type Unit = u: int | 0 <= u < 0x1_0000

  /** A JavaScript string: any sequence of code units, lone surrogates included. */
  type Text = seq<Unit>

  const BACKSPACE: Unit := 0x08
  const TAB: Unit := 0x09
  const NEWLINE: Unit := 0x0A
  const FORM_FEED: Unit := 0x0C
  const RETURN: Unit := 0x0D
  const SPACE: Unit := 0x20
  const QUOTE: Unit := 0x22
  const PLUS: Unit := 0x2B
  const COMMA: Unit := 0x2C
  const MINUS: Unit := 0x2D
  const DOT: Unit := 0x2E
  const SLASH: Unit := 0x2F
  const ZERO: Unit := 0x30
  const COLON: Unit := 0x3A
  const AT: Unit := 0x40
  const OPEN_BRACKET: Unit := 0x5B
  const BACKSLASH: Unit := 0x5C
  const CLOSE_BRACKET: Unit := 0x5D
  const LETTER_B: Unit := 0x62
  const LETTER_F: Unit := 0x66
  const LETTER_N: Unit := 0x6E
  const LETTER_R: Unit := 0x72
  const LETTER_T: Unit := 0x74
  const LETTER_U: Unit := 0x75
  const OPEN_BRACE: Unit := 0x7B
  const CLOSE_BRACE: Unit := 0x7D

  const TRUE: Text := [0x74, 0x72, 0x75, 0x65]
  const FALSE: Text := [0x66, 0x61, 0x6C, 0x73, 0x65]
  const NULL: Text := [0x6E, 0x75, 0x6C, 0x6C]

  /** The class `cx`: units that JavaScript engines mishandle. */
  predicate IsCx(u: Unit) {
    u == 0x0000 || IsInvisible(u)
  }

  /** The class `escapable`: units that `quote` must not print literally. */
  predicate IsEscapable(u: Unit) {
    u == BACKSLASH || u == QUOTE || u <= 0x1F || 0x7F <= u <= 0x9F || IsInvisible(u)
  }

  /** The ranges that `cx` and `escapable` spell out alike. */
  predicate IsInvisible(u: Unit) {
    || u == 0x00AD || 0x0600 <= u <= 0x0604 || u == 0x070F || u == 0x17B4 || u == 0x17B5
    || 0x200C <= u <= 0x200F || 0x2028 <= u <= 0x202F || 0x2060 <= u <= 0x206F
    || u == 0xFEFF || 0xFFF0 <= u
  }

  /** Whitespace of RFC 4627 section 2. */
  predicate IsWs(u: Unit) {
    u == SPACE || u == TAB || u == NEWLINE || u == RETURN
  }

  /** The regular-expression class `\s`. */
  predicate IsJsSpace(u: Unit) {
    || 0x09 <= u <= 0x0D || u == 0x20 || u == 0xA0 || u == 0x1680 || u == 0x180E || 0x2000 <= u <= 0x200A
    || u == 0x2028 || u == 0x2029 || u == 0x202F || u == 0x205F || u == 0x3000 || u == 0xFEFF
  }

  /** What ends a line in JavaScript. */
  predicate IsLineEnd(u: Unit) {
    u == NEWLINE || u == RETURN || u == 0x2028 || u == 0x2029
  }

  predicate IsDigit(u: Unit) {
    0x30 <= u <= 0x39
  }

  predicate AllWs(s: Text) {
    forall i :: 0 <= i < |s| ==> IsWs(s[i])
  }

  lemma Associate(a: Text, b: Text, c: Text)
    ensures a + b + c == a + (b + c)
  {
  }

  // ---------------------------------------------------------------- hexadecimal

  function HexDigit(d: nat): Unit
    requires d < 16
  {
    if d < 10 then 0x30 + d else 0x61 + (d - 10)
  }

  /** `[0-9a-fA-F]` */
  predicate IsHex(u: Unit) {
    0x30 <= u <= 0x39 || 0x41 <= u <= 0x46 || 0x61 <= u <= 0x66
  }

  function HexValue(u: Unit): nat
    requires IsHex(u)
  {
    if u <= 0x39 then u - 0x30 else if u <= 0x46 then u - 0x41 + 10 else u - 0x61 + 10
  }

  /** `n.toString(16)` */
  function ToHex(n: nat): Text {
    if n < 16 then [HexDigit(n)] else ToHex(n / 16) + [HexDigit(n % 16)]
  }

  /** `('0000' + u.toString(16)).slice(-4)` */
  function HexPad(u: Unit): Text {
    var padded := [ZERO, ZERO, ZERO, ZERO] + ToHex(u);
    padded[|padded| - 4..]
  }

  /** The value of four hexadecimal digits. */
  function HexValue4(a: Unit, b: Unit, c: Unit, d: Unit): Unit
    requires IsHex(a) && IsHex(b) && IsHex(c) && IsHex(d)
  {
    ((HexValue(a) * 16 + HexValue(b)) * 16 + HexValue(c)) * 16 + HexValue(d)
  }

  lemma ToHexForm(n: nat)
    requires n < 0x1_0000
    ensures ToHex(n) == if n < 16 then [HexDigit(n)]
                        else if n < 256 then [HexDigit(n / 16), HexDigit(n % 16)]
                        else if n < 4096 then [HexDigit(n / 256), HexDigit(n / 16 % 16), HexDigit(n % 16)]
                        else [HexDigit(n / 4096), HexDigit(n / 256 % 16), HexDigit(n / 16 % 16), HexDigit(n % 16)]
  {
    if 16 <= n {
      ToHexForm(n / 16);
      assert n / 16 / 16 == n / 256 && n / 16 / 256 == n / 4096;
    }
  }

  lemma HexDigitValue(d: nat)
    requires d < 16
    ensures IsHex(HexDigit(d)) && HexValue(HexDigit(d)) == d
  {
  }

  lemma HexPadForm(u: Unit)
    ensures HexPad(u) == [HexDigit(u / 4096), HexDigit(u / 256 % 16), HexDigit(u / 16 % 16), HexDigit(u % 16)]
  {
    ToHexForm(u);
    LastFour(ToHex(u));
    assert HexDigit(0) == ZERO;
  }

  lemma LastFour(t: Text)
    requires |t| <= 4
    ensures var padded := [ZERO, ZERO, ZERO, ZERO] + t;
            padded[|padded| - 4..] == seq(4 - |t|, _ => ZERO) + t
  {
  }

  lemma HexPlaces(u: Unit)
    ensures u == ((u / 4096 * 16 + u / 256 % 16) * 16 + u / 16 % 16) * 16 + u % 16
  {
    assert u / 16 == u / 16 / 16 * 16 + u / 16 % 16;
    assert u / 256 == u / 256 / 16 * 16 + u / 256 % 16;
    assert u / 16 / 16 == u / 256 && u / 256 / 16 == u / 4096;
  }

  /** The padded escape holds four digits that spell the unit. */
  lemma HexPadDigits(u: Unit)
    ensures var h := HexPad(u);
            && |h| == 4 && IsHex(h[0]) && IsHex(h[1]) && IsHex(h[2]) && IsHex(h[3])
            && u == HexValue4(h[0], h[1], h[2], h[3])
  {
    HexPadForm(u);
    HexPlaces(u);
    HexDigitValue(u / 4096);
    HexDigitValue(u / 256 % 16);
    HexDigitValue(u / 16 % 16);
    HexDigitValue(u % 16);
  }

  // -------------------------------------------------------------------- numbers

  /** Length of the longest prefix of digits. */
  function DigitRun(s: Text): (n: nat)
    ensures n <= |s|
  {
    if s != [] && IsDigit(s[0]) then 1 + DigitRun(s[1..]) else 0
  }

  function SignLen(s: Text): nat {
    if s != [] && s[0] == MINUS then 1 else 0
  }

  /** int = zero / ( digit1-9 *DIGIT ) */
  function IntLen(s: Text): (n: nat)
    ensures n <= |s|
  {
    if s == [] || !IsDigit(s[0]) then 0 else if s[0] == ZERO then 1 else DigitRun(s)
  }

  /** frac = decimal-point 1*DIGIT */
  function FracLen(s: Text): (n: nat)
    ensures n <= |s|
  {
    if 1 < |s| && s[0] == DOT && IsDigit(s[1]) then 1 + DigitRun(s[1..]) else 0
  }

  /** exp = e [ minus / plus ] 1*DIGIT */
  function ExpLen(s: Text): (n: nat)
    ensures n <= |s|
  {
    if s == [] || !(s[0] == 0x65 || s[0] == 0x45) then 0
    else
      var k := if 1 < |s| && (s[1] == PLUS || s[1] == MINUS) then 2 else 1;
      var d := DigitRun(s[k..]);
      if d == 0 then 0 else k + d
  }

  /** [ frac ] [ exp ] */
  function TailLen(s: Text): (n: nat)
    ensures n <= |s|
  {
    var c := FracLen(s);
    c + ExpLen(s[c..])
  }

  /** int [ frac ] [ exp ], 0 when there is no int */
  function UnsignedLen(s: Text): (n: nat)
    ensures n <= |s|
  {
    var b := IntLen(s);
    if b == 0 then 0 else b + TailLen(s[b..])
  }

  /** Length of the longest prefix that is a JSON number, 0 when there is none. */
  function NumberLen(s: Text): (n: nat)
    ensures n <= |s|
  {
    var a := SignLen(s);
    var n := UnsignedLen(s[a..]);
    if n == 0 then 0 else a + n
  }

  predicate IsNumber(t: Text) {
    t != [] && NumberLen(t) == |t|
  }

  /** What may follow a number inside a JSON text. */
  predicate StopsNumber(s: Text) {
    s == [] || s[0] == COMMA || s[0] == CLOSE_BRACKET || s[0] == CLOSE_BRACE || IsWs(s[0])
  }

  lemma {:induction false} DigitRunIsDigits(s: Text)
    ensures forall i :: 0 <= i < DigitRun(s) ==> IsDigit(s[i])
  {
    if s != [] && IsDigit(s[0]) {
      DigitRunIsDigits(s[1..]);
      assert forall i :: 0 < i < DigitRun(s) ==> s[i] == s[1..][i - 1];
    }
  }

  lemma {:induction false} DigitRunAppend(t: Text, rest: Text)
    requires rest == [] || !IsDigit(rest[0])
    ensures DigitRun(t + rest) == DigitRun(t)
  {
    if t == [] {
      assert t + rest == rest;
    } else if IsDigit(t[0]) {
      assert (t + rest)[1..] == t[1..] + rest;
      DigitRunAppend(t[1..], rest);
    }
  }

  lemma ExpLenAppend(t: Text, rest: Text)
    requires StopsNumber(rest)
    ensures ExpLen(t + rest) == ExpLen(t)
  {
    if t == [] {
      assert t + rest == rest;
    } else {
      var s := t + rest;
      assert s[0] == t[0];
      var k := if 1 < |t| && (t[1] == PLUS || t[1] == MINUS) then 2 else 1;
      assert k == if 1 < |s| && (s[1] == PLUS || s[1] == MINUS) then 2 else 1;
      assert s[k..] == t[k..] + rest;
      DigitRunAppend(t[k..], rest);
    }
  }

  lemma FracLenAppend(t: Text, rest: Text)
    requires StopsNumber(rest)
    ensures FracLen(t + rest) == FracLen(t)
  {
    if t == [] {
      assert t + rest == rest;
    } else {
      assert (t + rest)[1..] == t[1..] + rest;
      DigitRunAppend(t[1..], rest);
    }
  }

  lemma IntLenAppend(t: Text, rest: Text)
    requires StopsNumber(rest)
    ensures IntLen(t + rest) == IntLen(t)
  {
    if t == [] {
      assert t + rest == rest;
    } else {
      DigitRunAppend(t, rest);
    }
  }

  lemma TailLenAppend(t: Text, rest: Text)
    requires StopsNumber(rest)
    ensures TailLen(t + rest) == TailLen(t)
  {
    FracLenAppend(t, rest);
    var c := FracLen(t);
    assert (t + rest)[c..] == t[c..] + rest;
    ExpLenAppend(t[c..], rest);
  }

  lemma UnsignedLenAppend(t: Text, rest: Text)
    requires StopsNumber(rest)
    ensures UnsignedLen(t + rest) == UnsignedLen(t)
  {
    IntLenAppend(t, rest);
    var b := IntLen(t);
    assert (t + rest)[b..] == t[b..] + rest;
    TailLenAppend(t[b..], rest);
  }

  /** A number is read to its end, whatever legal continuation follows it. */
  lemma NumberLenAppend(t: Text, rest: Text)
    requires IsNumber(t) && StopsNumber(rest)
    ensures NumberLen(t + rest) == |t|
  {
    var a := SignLen(t);
    assert (t + rest)[0] == t[0];
    DropAppend(t, rest, a);
    UnsignedLenAppend(t[a..], rest);
  }

  lemma DropAppend(t: Text, rest: Text, n: nat)
    requires n <= |t|
    ensures (t + rest)[n..] == t[n..] + rest
  {
  }

  predicate IsNumberUnit(u: Unit) {
    IsDigit(u) || u == MINUS || u == PLUS || u == DOT || u == 0x65 || u == 0x45
  }

  predicate NumberUnitsTo(s: Text, n: nat)
    requires n <= |s|
  {
    forall i :: 0 <= i < n ==> IsNumberUnit(s[i])
  }

  lemma NumberUnitsAfter(s: Text, a: nat, n: nat)
    requires a <= n <= |s| && NumberUnitsTo(s, a) && NumberUnitsTo(s[a..], n - a)
    ensures NumberUnitsTo(s, n)
  {
    assert forall i :: a <= i < n ==> s[i] == s[a..][i - a];
  }

  lemma DigitUnits(s: Text)
    ensures NumberUnitsTo(s, DigitRun(s))
  {
    DigitRunIsDigits(s);
  }

  lemma ExpUnits(e: Text)
    ensures NumberUnitsTo(e, ExpLen(e))
  {
    if 0 < ExpLen(e) {
      var k := if 1 < |e| && (e[1] == PLUS || e[1] == MINUS) then 2 else 1;
      DigitUnits(e[k..]);
      NumberUnitsAfter(e, k, ExpLen(e));
    }
  }

  lemma TailUnits(s: Text)
    ensures NumberUnitsTo(s, TailLen(s))
  {
    var c := FracLen(s);
    if 0 < c {
      DigitUnits(s[1..]);
      NumberUnitsAfter(s, 1, c);
    }
    ExpUnits(s[c..]);
    NumberUnitsAfter(s, c, TailLen(s));
  }

  lemma UnsignedUnits(s: Text)
    ensures NumberUnitsTo(s, UnsignedLen(s))
  {
    var b := IntLen(s);
    if 0 < b {
      DigitUnits(s);
      TailUnits(s[b..]);
      NumberUnitsAfter(s, b, UnsignedLen(s));
    }
  }

  lemma NumberUnits(t: Text)
    requires IsNumber(t)
    ensures forall i :: 0 <= i < |t| ==> IsNumberUnit(t[i])
    ensures t[0] == MINUS || IsDigit(t[0])
  {
    var a := SignLen(t);
    UnsignedUnits(t[a..]);
    NumberUnitsAfter(t, a, |t|);
  }
}
