/** A string that JSON.parse reads is never the text it was read from: every quotation mark,
    backslash and unit of `cx` in the string cost a backslash in the text. */
module JsonStrings {
  import opened Wrappers
  import opened JsonText
  import opened JsonPrinter
  import opened JsonEval
  import opened JsonGuard

  /** What cannot stand in a string literal that is evaluated as it is. */
  predicate IsHeavy(u: Unit) {
    u == BACKSLASH || u == QUOTE || IsCx(u)
  }

  function Weight(s: Text): nat {
    if s == [] then 0 else (if IsHeavy(s[0]) then 1 else 0) + Weight(s[1..])
  }

  function Count(s: Text, u: Unit): nat {
    if s == [] then 0 else (if s[0] == u then 1 else 0) + Count(s[1..], u)
  }

  lemma {:induction false} CountAppend(a: Text, b: Text, u: Unit)
    ensures Count(a + b, u) == Count(a, u) + Count(b, u)
  {
    if a == [] {
      assert a + b == b;
    } else {
      assert (a + b)[1..] == a[1..] + b;
      CountAppend(a[1..], b, u);
    }
  }

  lemma {:induction false} WeightAppend(a: Text, b: Text)
    ensures Weight(a + b) == Weight(a) + Weight(b)
  {
    if a == [] {
      assert a + b == b;
    } else {
      assert (a + b)[1..] == a[1..] + b;
      WeightAppend(a[1..], b);
    }
  }

  lemma CountDrop(s: Text, n: nat, u: Unit)
    requires n <= |s|
    ensures Count(s[n..], u) <= Count(s, u)
  {
    assert s == s[..n] + s[n..];
    CountAppend(s[..n], s[n..], u);
  }

  lemma {:induction false} CountZero(s: Text, u: Unit)
    ensures Count(s, u) == 0 <==> u !in s
  {
    if s != [] {
      CountZero(s[1..], u);
      assert s == [s[0]] + s[1..];
    }
  }

  // ------------------------------------------------------------- reading a string

  lemma {:induction false} BodyWeight(s: Text)
    requires NoCx(s) && ReadBody(s).Some?
    ensures Weight(ReadBody(s).value.value) <= Count(s, BACKSLASH)
    decreases |s|
  {
    if s[0] != QUOTE {
      var n := if s[0] != BACKSLASH then 1 else if s[1] == LETTER_U then 6 else 2;
      var rest := s[n..];
      assert ReadUnit(s).value.rest == rest;
      BodyWeight(rest);
      WeightAppend([ReadUnit(s).value.value], ReadBody(rest).value.value);
      assert Count(s, BACKSLASH) == (if s[0] == BACKSLASH then 1 else 0) + Count(s[1..], BACKSLASH);
      assert s[1..][n - 1..] == rest;
      CountDrop(s[1..], n - 1, BACKSLASH);
    }
  }

  // ------------------------------------------------------------------- stage one

  lemma {:induction false} EscapeCxOfClean(t: Text)
    requires NoCx(t)
    ensures EscapeCx(t) == t
  {
    if t != [] {
      EscapeCxOfClean(t[1..]);
    }
  }

  lemma HexCount(u: Unit)
    ensures Count([BACKSLASH, LETTER_U] + HexPad(u), BACKSLASH) == 1
    ensures QUOTE !in [BACKSLASH, LETTER_U] + HexPad(u)
  {
    HexPadDigits(u);
    var h := HexPad(u);
    assert BACKSLASH !in h && QUOTE !in h;
    CountZero(h, BACKSLASH);
    CountAppend([BACKSLASH, LETTER_U], h, BACKSLASH);
    assert Count([BACKSLASH, LETTER_U], BACKSLASH) == 1 by {
      assert [BACKSLASH, LETTER_U][1..] == [LETTER_U];
    }
  }

  lemma {:induction false} EscapeCxWeight(t: Text)
    ensures Count(EscapeCx(t), BACKSLASH) + Count(t, QUOTE) == Weight(t)
    ensures QUOTE in EscapeCx(t) ==> 0 < Count(t, QUOTE)
  {
    if t != [] {
      EscapeCxWeight(t[1..]);
      var head := if IsCx(t[0]) then [BACKSLASH, LETTER_U] + HexPad(t[0]) else [t[0]];
      CountAppend(head, EscapeCx(t[1..]), BACKSLASH);
      if IsCx(t[0]) {
        HexCount(t[0]);
      } else {
        assert Count([t[0]], BACKSLASH) == if t[0] == BACKSLASH then 1 else 0;
      }
    }
  }

  // ---------------------------------------------------------------- the main result

  lemma {:induction false} SkipWsIsSuffix(s: Text)
    ensures exists n :: 0 <= n <= |s| && SkipWs(s) == s[n..]
  {
    if s != [] && IsWs(s[0]) {
      SkipWsIsSuffix(s[1..]);
      var n :| 0 <= n <= |s[1..]| && SkipWs(s[1..]) == s[1..][n..];
      assert s[1..][n..] == s[n + 1..];
    } else {
      assert s == s[0..];
    }
  }

  lemma LiteralWeight(w: Text, x: Text)
    requires NoCx(w) && ReadValue(w).Some? && ReadValue(w).value.value == Str(x)
    ensures Weight(x) <= Count(w, BACKSLASH) && QUOTE in w
  {
    BodyWeight(w[1..]);
    CountDrop(w, 1, BACKSLASH);
  }

  lemma EvaluatedWeight(s: Text, x: Text)
    requires NoCx(s) && Eval(s) == Some(Str(x))
    ensures Weight(x) <= Count(s, BACKSLASH) && QUOTE in s
  {
    SkipWsIsSuffix(s);
    var n :| 0 <= n <= |s| && SkipWs(s) == s[n..];
    LiteralWeight(s[n..], x);
    CountDrop(s, n, BACKSLASH);
  }

  /** A parsed string weighs less than its text. */
  lemma ParsedStringIsLighter(t: Text, x: Text)
    requires Parse(t) == Success(Str(x))
    ensures Weight(x) < Weight(t)
  {
    if NoCx(t) { EscapeCxOfClean(t); }
    assert Eval(EscapeCx(t)) == Some(Str(x));
    EscapeCxHasNoCx(t);
    EvaluatedWeight(EscapeCx(t), x);
    EscapeCxWeight(t);
  }

  /** So no text is parsed to itself, even behind a prefix of plain units. */
  lemma ParsedStringIsNotItsText(prefix: Text, t: Text)
    requires forall i :: 0 <= i < |prefix| ==> !IsHeavy(prefix[i])
    ensures Parse(t) != Success(Str(prefix + t))
  {
    WeightAppend(prefix, t);
    if Parse(t) == Success(Str(prefix + t)) {
      ParsedStringIsLighter(t, prefix + t);
    }
  }
}
