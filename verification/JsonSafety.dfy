/** What the guard of JSON.parse is for: in every text it lets through, nothing outside string
    literals can call, assign or comment. */
module JsonSafety {
  import opened Wrappers
  import opened JsonText
  import opened JsonEval
  import opened JsonGuard

  // --------------------------------------------- the text as JavaScript reads it

  /** What follows the string literal whose opening quotation mark has just been read; None when it
      is not closed on its line. */
  function AfterString(s: Text): (r: Option<Text>)
    ensures r.Some? ==> |r.value| < |s|
  {
    if s == [] || IsLineEnd(s[0]) then None
    else if s[0] == QUOTE then Some(s[1..])
    else if s[0] == BACKSLASH then (if |s| < 2 then None else AfterString(s[2..]))
    else AfterString(s[1..])
  }

  /** The text outside string literals; None when one is not closed. */
  function Code(s: Text): Option<Text>
    decreases |s|
  {
    if s == [] then Some([])
    else if s[0] == QUOTE then
      match AfterString(s[1..])
      case None => None
      case Some(rest) => Code(rest)
    else
      match Code(s[1..])
      case None => None
      case Some(rest) => Some([s[0]] + rest)
  }

  /** Marks, whitespace, and what numbers and the words true, false and null are made of. */
  predicate IsCodeUnit(u: Unit) {
    IsMark(u) || IsNumberUnit(u) || u in TRUE || u in FALSE || u in NULL
  }

  predicate AllCode(t: Text) {
    forall i :: 0 <= i < |t| ==> IsCodeUnit(t[i])
  }

  predicate IsHarmless(s: Text) {
    Code(s).Some? && AllCode(Code(s).value)
  }

  // ------------------------------------------------------- the third pass undone

  predicate AllMarks(t: Text) {
    forall i :: 0 <= i < |t| ==> IsMark(t[i])
  }

  lemma MarksCons(u: Unit, t: Text)
    requires t != [] && t[0] == u
    ensures AllMarks(t) <==> IsMark(u) && AllMarks(t[1..])
  {
    assert AllMarks(t[1..]) ==> forall i :: 1 <= i < |t| ==> t[i] == t[1..][i - 1];
  }

  lemma {:induction false} SpaceMarks(t: Text)
    ensures AllMarks(t[..SpaceRun(t)])
  {
    if t != [] && IsJsSpace(t[0]) {
      SpaceMarks(t[1..]);
      assert t[..SpaceRun(t)][1..] == t[1..][..SpaceRun(t[1..])];
      MarksCons(t[0], t[..SpaceRun(t)]);
    }
  }

  lemma {:induction false} OpeningMarks(t: Text)
    ensures AllMarks(t[..OpeningRun(t)])
    decreases |t|
  {
    var n := OpeningRun(t);
    if 0 < n {
      var k := SpaceRun(t);
      SpaceMarks(t);
      OpeningMarks(t[k + 1..]);
      var run := t[..n];
      assert run[..k] == t[..k] && run[k] == OPEN_BRACKET;
      assert run[k..][1..] == t[k + 1..][..n - k - 1];
      MarksCons(OPEN_BRACKET, run[k..]);
    }
  }

  /** The third pass deletes nothing but marks. */
  lemma {:induction false} StrippedMarks(t: Text, atStart: bool)
    requires AllSafe(StripOpenings(t, atStart))
    ensures AllMarks(t)
    decreases |t|
  {
    if t == [] {
    } else if atStart && 0 < OpeningRun(t) {
      OpeningMarks(t);
      StrippedMarks(t[OpeningRun(t)..], false);
    } else if (t[0] == COLON || t[0] == COMMA) && 0 < OpeningRun(t[1..]) {
      var n := OpeningRun(t[1..]);
      OpeningMarks(t[1..]);
      StrippedMarks(t[1 + n..], false);
      assert t[1..][n..] == t[1 + n..];
      MarksCons(t[0], t);
    } else {
      SafeTail(t[0], StripOpenings(t[1..], false));
      StrippedMarks(t[1..], false);
      MarksCons(t[0], t);
    }
  }

  lemma SafeTail(u: Unit, t: Text)
    requires AllSafe([u] + t)
    ensures IsSafe(u) && AllSafe(t)
  {
    assert ([u] + t)[0] == u;
    assert forall i :: 0 <= i < |t| ==> t[i] == ([u] + t)[i + 1];
  }

  // --------------------------------------------------------- the tokens in between

  predicate CodeUnitsTo(t: Text, n: nat)
    requires n <= |t|
  {
    forall i :: 0 <= i < n ==> IsCodeUnit(t[i])
  }

  lemma LooseUnits(t: Text)
    ensures NumberUnitsTo(t, LooseUnsignedLen(t))
  {
    var b := DigitRun(t);
    DigitUnits(t);
    if 0 < b {
      LooseTailUnits(t[b..]);
    }
  }

  lemma LooseTailUnits(t: Text)
    ensures NumberUnitsTo(t, LooseTailLen(t))
  {
    var c := if t != [] && t[0] == DOT then 1 + DigitRun(t[1..]) else 0;
    if 0 < c {
      DigitUnits(t[1..]);
    }
    ExpUnits(t[c..]);
  }

  lemma WordUnits(t: Text, word: Text)
    requires StartsWith(t, word) && word in {TRUE, FALSE, NULL}
    ensures CodeUnitsTo(t, |word|)
  {
    assert forall i :: 0 <= i < |word| ==> t[i] == t[..|word|][i];
  }

  /** A token that is no string is made of the units of numbers and words. */
  lemma TokenUnits(t: Text)
    requires t != [] && t[0] != QUOTE
    ensures CodeUnitsTo(t, TokenLen(t))
  {
    if StartsWith(t, TRUE) { WordUnits(t, TRUE); }
    else if StartsWith(t, FALSE) { WordUnits(t, FALSE); }
    else if StartsWith(t, NULL) { WordUnits(t, NULL); }
    else {
      var a := SignLen(t);
      LooseUnits(t[a..]);
    }
  }

  // ---------------------------------------------------------- the first pass undone

  /** Where the first pass left code units, it changed nothing. */
  lemma {:induction false} UnchangedCode(s: Text, n: nat)
    requires n <= |BlankEscapes(s)| && CodeUnitsTo(BlankEscapes(s), n)
    ensures n <= |s| && CodeUnitsTo(s, n) && BlankEscapes(s[n..]) == BlankEscapes(s)[n..]
    decreases n
  {
    if n == 0 {
      assert s[0..] == s;
    } else {
      var t := BlankEscapes(s);
      assert IsCodeUnit(t[0]) && t[0] != AT && t[0] != BACKSLASH;
      assert t == [s[0]] + BlankEscapes(s[1..]);
      assert t[1..] == BlankEscapes(s[1..]);
      assert forall i :: 0 <= i < n - 1 ==> t[1..][i] == t[i + 1];
      UnchangedCode(s[1..], n - 1);
      assert s[1..][n - 1..] == s[n..] && t[1..][n - 1..] == t[n..];
      assert forall i :: 1 <= i < n ==> s[i] == s[1..][i - 1];
    }
  }

  lemma {:induction false} CodeOver(s: Text, n: nat)
    requires n <= |s| && CodeUnitsTo(s, n) && IsHarmless(s[n..])
    ensures IsHarmless(s)
    decreases n
  {
    if n == 0 {
      assert s[0..] == s;
    } else {
      assert s[1..][n - 1..] == s[n..];
      assert forall i :: 0 <= i < n - 1 ==> s[1..][i] == s[i + 1];
      assert IsCodeUnit(s[0]) && s[0] != QUOTE;
      CodeOver(s[1..], n - 1);
      var rest := Code(s[1..]).value;
      assert forall i :: 0 <= i < |[s[0]] + rest| ==> ([s[0]] + rest)[i] == if i == 0 then s[0] else rest[i - 1];
    }
  }

  /** A string that the second pass takes is a string literal of the text before the first. */
  lemma {:induction false} StringIsLiteral(x: Text)
    requires NoCx(x)
    requires var t := BlankEscapes(x); BodyRun(t) < |t| && t[BodyRun(t)] == QUOTE
    ensures var t := BlankEscapes(x);
            AfterString(x).Some? && BlankEscapes(AfterString(x).value) == t[BodyRun(t) + 1..]
    decreases |x|
  {
    var t := BlankEscapes(x);
    if x[0] == QUOTE {
      assert t[1..] == BlankEscapes(x[1..]);
    } else {
      assert IsStringBody(t[0]);
      var n := if t[0] == x[0] then 1 else if x[1] == LETTER_U then 6 else 2;
      assert t[1..] == BlankEscapes(x[n..]);
      assert t[BodyRun(t)] == t[1..][BodyRun(t[1..])];
      assert t[BodyRun(t) + 1..] == t[1..][BodyRun(t[1..]) + 1..];
      StringIsLiteral(x[n..]);
      if n == 6 { AfterHex(x); }
    }
  }

  lemma AfterHex(x: Text)
    requires 6 <= |x| && x[0] == BACKSLASH && IsHex4(x[2..])
    ensures AfterString(x) == AfterString(x[6..])
  {
    assert AfterString(x) == AfterString(x[2..]);
    SkipHex(x, 2);
    SkipHex(x, 3);
    SkipHex(x, 4);
    SkipHex(x, 5);
  }

  lemma SkipHex(x: Text, i: nat)
    requires i < |x| && IsHex(x[i])
    ensures AfterString(x[i..]) == AfterString(x[i + 1..])
  {
    HexIsNoCx(x[i]);
    assert x[i..][1..] == x[i + 1..];
  }

  // ---------------------------------------------------------------- the theorem

  predicate AllTokens(t: Text) {
    AllMarks(BlankTokens(t))
  }

  lemma TokensAfter(t: Text)
    requires t != [] && AllTokens(t)
    ensures TokenLen(t) == 0 ==> IsMark(t[0]) && AllTokens(t[1..])
    ensures 0 < TokenLen(t) ==> AllTokens(t[TokenLen(t)..])
  {
    var n := TokenLen(t);
    var b := BlankTokens(t);
    MarksCons(b[0], b);
    assert b[1..] == BlankTokens(t[if n == 0 then 1 else n..]);
  }

  lemma {:induction false} TokensAreHarmless(s: Text)
    requires AllTokens(BlankEscapes(s)) && NoCx(s)
    ensures IsHarmless(s)
    decreases |s|
  {
    if s != [] {
      var t := BlankEscapes(s);
      if s[0] == QUOTE {
        StringIsPassed(s);
        TokensAreHarmless(AfterString(s[1..]).value);
      } else {
        var m := if TokenLen(t) == 0 then 1 else TokenLen(t);
        TokensAfter(t);
        TokenUnits(t);
        UnchangedCode(s, m);
        TokensAreHarmless(s[m..]);
        CodeOver(s, m);
      }
    }
  }

  lemma StringIsPassed(s: Text)
    requires s != [] && s[0] == QUOTE && AllTokens(BlankEscapes(s)) && NoCx(s)
    ensures var after := AfterString(s[1..]); after.Some? && AllTokens(BlankEscapes(after.value)) && NoCx(after.value)
  {
    var t := BlankEscapes(s);
    TokensAfter(t);
    StringIsLiteral(s[1..]);
    AfterIsSuffix(s[1..]);
  }

  lemma {:induction false} AfterIsSuffix(s: Text)
    requires NoCx(s) && AfterString(s).Some?
    ensures NoCx(AfterString(s).value)
    decreases |s|
  {
    if s[0] != QUOTE {
      var n := if s[0] == BACKSLASH then 2 else 1;
      AfterIsSuffix(s[n..]);
    }
  }

  /** A parenthesis, equals sign, semicolon, slash, apostrophe or backslash, or the w of `new`. */
  predicate CanAct(u: Unit) {
    u == 0x28 || u == 0x29 || u == 0x3D || u == 0x3B || u == 0x2F || u == 0x27 || u == BACKSLASH || u == 0x77
  }

  lemma HarmlessCannotAct(s: Text)
    requires IsHarmless(s)
    ensures forall i :: 0 <= i < |Code(s).value| ==> !CanAct(Code(s).value[i])
  {
    var code := Code(s).value;
    forall i | 0 <= i < |code|
      ensures !CanAct(code[i])
    {
    }
  }

  lemma GuardLeavesMarks(s: Text)
    requires Guard(s)
    ensures AllTokens(BlankEscapes(s))
  {
    StrippedMarks(BlankTokens(BlankEscapes(s)), true);
  }

  /** Every text that passes the guard is harmless when it is evaluated: its strings are closed on
      their lines, and outside them stand only marks, whitespace, and the units of numbers and of the
      words true, false and null. */
  lemma GuardIsSafe(text: Text)
    requires Guard(Prepared(text))
    ensures var s := Prepared(text);
            IsHarmless(s) && forall i :: 0 <= i < |Code(s).value| ==> !CanAct(Code(s).value[i])
  {
    var s := Prepared(text);
    PreparedHasNoCx(text);
    GuardLeavesMarks(s);
    TokensAreHarmless(s);
    HarmlessCannotAct(s);
  }
}
