/** JSON.parse of json2.js: the rewriting passes of its guard, which let through all that the printer emits. */
module JsonGuard {
  import opened Wrappers
  import opened JsonText
  import opened JsonPrinter
  import opened JsonEval
  import opened JsonRoundTrip

  // ----------------------------------------------------------------- the passes

  /** Stage one: each unit of `cx` becomes a \u escape. */
  function EscapeCx(s: Text): Text {
    if s == [] then []
    else (if IsCx(s[0]) then [BACKSLASH, LETTER_U] + HexPad(s[0]) else [s[0]]) + EscapeCx(s[1..])
  }

  /** Stage two, first pass: every legal backslash pair becomes `@`. */
  function BlankEscapes(s: Text): Text {
    if s == [] then []
    else if s[0] == BACKSLASH && 1 < |s| && SimpleEscape(s[1]).Some? then [AT] + BlankEscapes(s[2..])
    else if s[0] == BACKSLASH && 1 < |s| && s[1] == LETTER_U && IsHex4(s[2..]) then [AT] + BlankEscapes(s[6..])
    else [s[0]] + BlankEscapes(s[1..])
  }

  /** `[^"\\\n\r]` */
  predicate IsStringBody(u: Unit) {
    u != QUOTE && u != BACKSLASH && u != NEWLINE && u != RETURN
  }

  function BodyRun(s: Text): (n: nat)
    ensures n <= |s|
  {
    if s != [] && IsStringBody(s[0]) then 1 + BodyRun(s[1..]) else 0
  }

  /** `\d+(?:\.\d*)?(?:[eE][+\-]?\d+)?` */
  function LooseUnsignedLen(s: Text): (n: nat)
    ensures n <= |s|
  {
    var b := DigitRun(s);
    if b == 0 then 0 else b + LooseTailLen(s[b..])
  }

  function LooseTailLen(s: Text): (n: nat)
    ensures n <= |s|
  {
    var c := if s != [] && s[0] == DOT then 1 + DigitRun(s[1..]) else 0;
    c + ExpLen(s[c..])
  }

  /** Length of the simple value token at the start of `s`, 0 when there is none. */
  function TokenLen(s: Text): (n: nat)
    ensures n <= |s|
  {
    if s != [] && s[0] == QUOTE then
      var n := 1 + BodyRun(s[1..]);
      if n < |s| && s[n] == QUOTE then n + 1 else 0
    else if StartsWith(s, TRUE) then 4
    else if StartsWith(s, FALSE) then 5
    else if StartsWith(s, NULL) then 4
    else
      var a := SignLen(s);
      var n := LooseUnsignedLen(s[a..]);
      if n == 0 then 0 else a + n
  }

  /** Second pass: every simple value token becomes `]`. */
  function BlankTokens(s: Text): Text {
    if s == [] then []
    else
      var n := TokenLen(s);
      if n == 0 then [s[0]] + BlankTokens(s[1..]) else [CLOSE_BRACKET] + BlankTokens(s[n..])
  }

  function SpaceRun(s: Text): (n: nat)
    ensures n <= |s|
  {
    if s != [] && IsJsSpace(s[0]) then 1 + SpaceRun(s[1..]) else 0
  }

  /** Length of the longest match of `(?:\s*\[)+` at the start of `s`, 0 when there is none. */
  function OpeningRun(s: Text): (n: nat)
    ensures n <= |s|
  {
    var k := SpaceRun(s);
    if k < |s| && s[k] == OPEN_BRACKET then k + 1 + OpeningRun(s[k + 1..]) else 0
  }

  /** Third pass: opening brackets that follow a colon, a comma or the start are deleted. */
  function StripOpenings(s: Text, atStart: bool): Text
    decreases |s|
  {
    if s == [] then []
    else if atStart && 0 < OpeningRun(s) then StripOpenings(s[OpeningRun(s)..], false)
    else if (s[0] == COLON || s[0] == COMMA) && 0 < OpeningRun(s[1..]) then
      StripOpenings(s[1 + OpeningRun(s[1..])..], false)
    else [s[0]] + StripOpenings(s[1..], false)
  }

  /** `[\],:{}\s]` */
  predicate IsSafe(u: Unit) {
    u == CLOSE_BRACKET || u == COMMA || u == COLON || u == OPEN_BRACE || u == CLOSE_BRACE || IsJsSpace(u)
  }

  predicate AllSafe(t: Text) {
    forall i :: 0 <= i < |t| ==> IsSafe(t[i])
  }

  predicate Guard(s: Text) {
    AllSafe(StripOpenings(BlankTokens(BlankEscapes(s)), true))
  }

  datatype SyntaxError = SyntaxError

  /** The text that the later stages see. */
  function Prepared(text: Text): Text {
    if exists i :: 0 <= i < |text| && IsCx(text[i]) then EscapeCx(text) else text
  }

  function Parse(text: Text): Result<Value, SyntaxError> {
    if Guard(Prepared(text)) then
      match Eval(Prepared(text))
      case Some(v) => Success(v)
      case None => Failure(SyntaxError)
    else Failure(SyntaxError)
  }

  // -------------------------------------------------- what the third pass needs

  /** Every opening bracket of a token-free text is `armed`: only whitespace and brackets
      stand between it and a colon, a comma or the start; all other units are safe. */
  predicate Armed(t: Text, armed: bool) {
    t == [] ||
    if t[0] == OPEN_BRACKET then armed && Armed(t[1..], true)
    else if t[0] == COMMA || t[0] == COLON then Armed(t[1..], true)
    else if IsJsSpace(t[0]) then Armed(t[1..], armed)
    else IsSafe(t[0]) && Armed(t[1..], false)
  }

  lemma {:induction false} ArmedAfterSpaces(t: Text, armed: bool)
    requires Armed(t, armed)
    ensures Armed(t[SpaceRun(t)..], armed)
  {
    if t != [] && IsJsSpace(t[0]) {
      ArmedAfterSpaces(t[1..], armed);
      assert t[SpaceRun(t)..] == t[1..][SpaceRun(t[1..])..];
    }
  }

  lemma {:induction false} DisarmedSpaces(t: Text)
    requires Armed(t, true) && OpeningRun(t) == 0
    ensures Armed(t, false)
  {
    if t != [] && IsJsSpace(t[0]) {
      var k := SpaceRun(t[1..]);
      assert k < |t[1..]| ==> t[1..][k] == t[k + 1];
      DisarmedSpaces(t[1..]);
    }
  }

  /** After the longest run of openings no bracket is left waiting. */
  lemma {:induction false} ArmedAfterOpenings(t: Text)
    requires Armed(t, true)
    ensures Armed(t[OpeningRun(t)..], false)
    decreases |t|
  {
    if OpeningRun(t) == 0 {
      DisarmedSpaces(t);
    } else {
      var k := SpaceRun(t);
      ArmedAfterSpaces(t, true);
      assert t[k..][1..] == t[k + 1..];
      ArmedAfterOpenings(t[k + 1..]);
      assert t[OpeningRun(t)..] == t[k + 1..][OpeningRun(t[k + 1..])..];
    }
  }

  lemma {:induction false} StripLeavesSafe(t: Text, atStart: bool)
    requires Armed(t, atStart)
    ensures AllSafe(StripOpenings(t, atStart))
    decreases |t|
  {
    if t == [] {
    } else if atStart && 0 < OpeningRun(t) {
      ArmedAfterOpenings(t);
      StripLeavesSafe(t[OpeningRun(t)..], false);
    } else {
      if atStart { DisarmedSpaces(t); }
      if t[0] == COLON || t[0] == COMMA {
        var n := OpeningRun(t[1..]);
        ArmedAfterOpenings(t[1..]);
        assert t[1..][n..] == t[1 + n..];
        StripLeavesSafe(t[1 + n..], false);
      } else {
        assert IsSafe(t[0]) && Armed(t[1..], false);
        StripLeavesSafe(t[1..], false);
      }
    }
  }

  // ------------------------------------ the first two passes, token by token

  /** The text left by the first two passes is well armed. */
  predicate Accepted(s: Text, armed: bool) {
    Armed(BlankTokens(BlankEscapes(s)), armed)
  }

  predicate IsMark(u: Unit) {
    u == OPEN_BRACKET || IsSafe(u)
  }

  /** A mark or whitespace passes both passes unchanged. */
  lemma PassMark(u: Unit, s: Text)
    requires IsMark(u)
    ensures BlankTokens(BlankEscapes([u] + s)) == [u] + BlankTokens(BlankEscapes(s))
  {
    var t := [u] + BlankEscapes(s);
    assert TokenLen(t) == 0 by {
      assert SignLen(t) == 0 && t[0..] == t && DigitRun(t) == 0;
      NotLiteral(t);
    }
  }

  lemma NotLiteral(s: Text)
    requires s != [] && s[0] != LETTER_T && s[0] != LETTER_F && s[0] != LETTER_N
    ensures !StartsWith(s, TRUE) && !StartsWith(s, FALSE) && !StartsWith(s, NULL)
  {
    forall literal | literal in {TRUE, FALSE, NULL}
      ensures !StartsWith(s, literal)
    {
      assert s[0] != literal[0];
      if |literal| <= |s| {
        assert s[..|literal|][0] == s[0];
      }
    }
  }

  lemma {:induction false} AcceptedWs(w: Text, s: Text, armed: bool)
    requires AllWs(w) && Accepted(s, armed)
    ensures Accepted(w + s, armed)
  {
    if w == [] {
      assert w + s == s;
    } else {
      var tail := w[1..] + s;
      assert w + s == [w[0]] + tail;
      AcceptedWs(w[1..], s, armed);
      PassMark(w[0], tail);
    }
  }

  /** What a mark followed by `s` needs of `s`. */
  lemma AcceptedMark(u: Unit, s: Text, armed: bool)
    requires IsMark(u) && !IsJsSpace(u) && (u == OPEN_BRACKET ==> armed)
    requires Accepted(s, u == OPEN_BRACKET || u == COMMA || u == COLON)
    ensures Accepted([u] + s, armed)
  {
    PassMark(u, s);
  }

  lemma {:induction false} BlankEscapesOver(x: Text, s: Text)
    requires BACKSLASH !in x
    ensures BlankEscapes(x + s) == x + BlankEscapes(s)
  {
    if x == [] {
      assert x + s == s;
    } else {
      assert (x + s)[1..] == x[1..] + s;
      BlankEscapesOver(x[1..], s);
    }
  }

  lemma AcceptedLiteral(literal: Text, s: Text, armed: bool)
    requires literal in {TRUE, FALSE, NULL} && Accepted(s, false)
    ensures Accepted(literal + s, armed)
  {
    BlankEscapesOver(literal, s);
    var b := literal + BlankEscapes(s);
    assert b[..|literal|] == literal;
    assert !StartsWith(b, TRUE) || literal == TRUE by { assert StartsWith(b, TRUE) ==> b[..4][0] == b[0]; }
    assert !StartsWith(b, FALSE) || literal == FALSE by { assert StartsWith(b, FALSE) ==> b[..5][0] == b[0]; }
  }

  // -------------------------------------------------------------------- numbers

  lemma LooseTail(t: Text, rest: Text)
    requires TailLen(t) == |t| && StopsNumber(rest)
    ensures LooseTailLen(t + rest) == |t|
  {
    TailLenAppend(t, rest);
    var c := FracLen(t);
    if c == 0 {
      assert t != [] ==> t[0] == 0x65 || t[0] == 0x45 by {
        assert t[0..] == t;
      }
      assert (t + rest) == [] || (t + rest)[0] != DOT;
      FracLenAppend(t, rest);
    } else {
      FracLenAppend(t, rest);
    }
  }

  lemma LooseUnsigned(t: Text, rest: Text)
    requires t != [] && UnsignedLen(t) == |t| && StopsNumber(rest)
    ensures LooseUnsignedLen(t + rest) == |t|
  {
    var b := IntLen(t);
    DropAppend(t, rest, b);
    LooseTail(t[b..], rest);
    IntIsRun(t, rest);
  }

  lemma IntIsRun(t: Text, rest: Text)
    requires t != [] && 0 < IntLen(t) && StopsNumber(rest)
    requires var tail := t[IntLen(t)..]; tail != [] ==> !IsDigit(tail[0])
    ensures DigitRun(t + rest) == IntLen(t)
  {
    if t[0] == ZERO {
      DropAppend(t, rest, 1);
      assert DigitRun(t[1..] + rest) == 0;
    } else {
      DigitRunAppend(t, rest);
    }
  }

  lemma NumberToken(text: Text, rest: Text)
    requires IsNumber(text) && StopsNumber(rest)
    ensures TokenLen(text + rest) == |text|
  {
    NumberUnits(text);
    var s := text + rest;
    assert s[0] == text[0];
    NotLiteral(s);
    var a := SignLen(text);
    DropAppend(text, rest, a);
    LooseUnsigned(text[a..], rest);
  }

  lemma AcceptedNumber(text: Text, s: Text, armed: bool)
    requires IsNumber(text) && StopsNumber(s) && Accepted(s, false)
    ensures Accepted(text + s, armed)
  {
    NumberUnits(text);
    BlankEscapesOver(text, s);
    NumberToken(text, BlankEscapes(s));
  }

  // -------------------------------------------------------------------- strings

  /** The body of a quoted string after the first pass. */
  function Blanked(x: Text): (r: Text)
    ensures |r| == |x|
  {
    seq(|x|, i requires 0 <= i < |x| => if IsEscapable(x[i]) then AT else x[i])
  }

  lemma BlankHex(h: Text, s: Text)
    requires |h| == 4 && IsHex4(h)
    ensures BlankEscapes([BACKSLASH, LETTER_U] + h + s) == [AT] + BlankEscapes(s)
  {
    var t := [BACKSLASH, LETTER_U] + h + s;
    assert t[2..] == h + s;
    assert t[6..] == s;
  }

  lemma BlankUnit(u: Unit, s: Text)
    ensures BlankEscapes((if IsEscapable(u) then EscapeUnit(u) else [u]) + s)
         == [if IsEscapable(u) then AT else u] + BlankEscapes(s)
  {
    if IsEscapable(u) {
      BlankEscaped(u, s);
    }
  }

  lemma BlankEscaped(u: Unit, s: Text)
    ensures BlankEscapes(EscapeUnit(u) + s) == [AT] + BlankEscapes(s)
  {
    var e := EscapeUnit(u);
    if e[1] == LETTER_U {
      HexPadDigits(u);
      BlankHex(HexPad(u), s);
    } else {
      assert e == [BACKSLASH, e[1]];
    }
  }

  lemma {:induction false} BlankQuoted(x: Text, s: Text)
    ensures BlankEscapes(Escape(x) + s) == Blanked(x) + BlankEscapes(s)
  {
    if x == [] {
      assert Escape(x) + s == s;
      assert Blanked(x) + BlankEscapes(s) == BlankEscapes(s);
    } else {
      var head := if IsEscapable(x[0]) then EscapeUnit(x[0]) else [x[0]];
      var mark := if IsEscapable(x[0]) then AT else x[0];
      Associate(head, Escape(x[1..]), s);
      BlankUnit(x[0], Escape(x[1..]) + s);
      BlankQuoted(x[1..], s);
      assert Blanked(x) == [mark] + Blanked(x[1..]);
      Associate([mark], Blanked(x[1..]), BlankEscapes(s));
    }
  }

  lemma {:induction false} BodyRunOver(body: Text, s: Text)
    requires forall i :: 0 <= i < |body| ==> IsStringBody(body[i])
    requires s != [] && !IsStringBody(s[0])
    ensures BodyRun(body + s) == |body|
  {
    if body == [] {
      assert body + s == s;
    } else {
      assert (body + s)[1..] == body[1..] + s;
      BodyRunOver(body[1..], s);
    }
  }

  lemma BlankQuote(x: Text, s: Text)
    ensures BlankEscapes(Quote(x) + s) == [QUOTE] + Blanked(x) + [QUOTE] + BlankEscapes(s)
  {
    QuoteIsEscape(x);
    var closed := [QUOTE] + s;
    Associate([QUOTE] + Escape(x), [QUOTE], s);
    Associate([QUOTE], Escape(x), closed);
    BlankEscapesOver([QUOTE], Escape(x) + closed);
    BlankQuoted(x, closed);
    BlankEscapesOver([QUOTE], s);
    Associate([QUOTE] + Blanked(x), [QUOTE], BlankEscapes(s));
    Associate([QUOTE], Blanked(x), [QUOTE] + BlankEscapes(s));
  }

  lemma QuotedToken(body: Text, rest: Text)
    requires forall i :: 0 <= i < |body| ==> IsStringBody(body[i])
    ensures TokenLen([QUOTE] + body + [QUOTE] + rest) == |body| + 2
  {
    var t := [QUOTE] + body + [QUOTE] + rest;
    assert t[1..] == body + ([QUOTE] + rest);
    BodyRunOver(body, [QUOTE] + rest);
  }

  lemma AcceptedQuote(x: Text, s: Text, armed: bool)
    requires Accepted(s, false)
    ensures Accepted(Quote(x) + s, armed)
  {
    BlankQuote(x, s);
    QuotedToken(Blanked(x), BlankEscapes(s));
  }

  // ------------------------------------------------------------- printed values

  /** The main induction: a printed value is accepted wherever a value may stand. */
  lemma {:induction false} AcceptedPrinted(v: Value, gap: Text, indent: Text, rest: Text)
    requires WellFormed(v) && AllWs(gap) && AllWs(indent) && StopsNumber(rest) && Accepted(rest, false)
    ensures Accepted(OrNull(Print(v, gap, indent)) + rest, true)
    decreases v, 1
  {
    match v
    case Undefined => AcceptedLiteral(NULL, rest, true);
    case Null => AcceptedLiteral(NULL, rest, true);
    case NonFinite => AcceptedLiteral(NULL, rest, true);
    case Bool(b) => AcceptedLiteral(if b then TRUE else FALSE, rest, true);
    case Number(text) => AcceptedNumber(text, rest, true);
    case Str(s) => AcceptedQuote(s, rest, true);
    case Arr(elems) =>
      var inner := gap + indent;
      var partial := PrintElems(elems, inner, indent);
      if partial == [] {
        AcceptedEmpty(OPEN_BRACKET, CLOSE_BRACKET, rest);
      } else {
        var w, end := WrapShape(OPEN_BRACKET, CLOSE_BRACKET, partial, inner, gap, rest);
        assert StopsNumber(end + [CLOSE_BRACKET] + rest);
        AcceptedEnd(CLOSE_BRACKET, end, rest);
        AcceptedElems(elems, inner, indent, w, end + [CLOSE_BRACKET] + rest);
        AcceptedOpening(OPEN_BRACKET, w, Join(partial, [COMMA] + w) + (end + [CLOSE_BRACKET] + rest));
      }
    case Obj(members) =>
      var inner := gap + indent;
      var partial := PrintMembers(members, inner, indent);
      if partial == [] {
        AcceptedEmpty(OPEN_BRACE, CLOSE_BRACE, rest);
      } else {
        var w, end := WrapShape(OPEN_BRACE, CLOSE_BRACE, partial, inner, gap, rest);
        assert StopsNumber(end + [CLOSE_BRACE] + rest);
        AcceptedEnd(CLOSE_BRACE, end, rest);
        AcceptedMembers(members, inner, indent, w, end + [CLOSE_BRACE] + rest);
        AcceptedOpening(OPEN_BRACE, w, Join(partial, [COMMA] + w) + (end + [CLOSE_BRACE] + rest));
      }
  }

  lemma AcceptedEmpty(open: Unit, close: Unit, rest: Text)
    requires (open == OPEN_BRACKET && close == CLOSE_BRACKET) || (open == OPEN_BRACE && close == CLOSE_BRACE)
    requires Accepted(rest, false)
    ensures Accepted([open, close] + rest, true)
  {
    Associate([open], [close], rest);
    assert [open] + [close] == [open, close];
    AcceptedMark(close, rest, open == OPEN_BRACKET);
    AcceptedMark(open, [close] + rest, true);
  }

  lemma AcceptedEnd(close: Unit, end: Text, rest: Text)
    requires (close == CLOSE_BRACKET || close == CLOSE_BRACE) && AllWs(end) && Accepted(rest, false)
    ensures Accepted(end + [close] + rest, false)
  {
    Associate(end, [close], rest);
    AcceptedMark(close, rest, false);
    AcceptedWs(end, [close] + rest, false);
  }

  lemma AcceptedOpening(open: Unit, w: Text, body: Text)
    requires AllWs(w)
    requires (open == OPEN_BRACKET && Accepted(body, true)) || (open == OPEN_BRACE && Accepted(body, false))
    ensures Accepted([open] + w + body, true)
  {
    Associate([open], w, body);
    AcceptedWs(w, body, open == OPEN_BRACKET);
    AcceptedMark(open, w + body, true);
  }

  lemma AcceptedSeparator(u: Unit, w: Text, body: Text)
    requires (u == COMMA || u == COLON) && AllWs(w) && Accepted(body, true)
    ensures Accepted([u] + w + body, false)
  {
    Associate([u], w, body);
    AcceptedWs(w, body, true);
    AcceptedMark(u, w + body, false);
  }

  lemma {:induction false} AcceptedElems(vs: seq<Value>, gap: Text, indent: Text, w: Text, close: Text)
    requires vs != [] && forall i :: 0 <= i < |vs| ==> WellFormed(vs[i])
    requires AllWs(gap) && AllWs(indent) && AllWs(w) && Accepted(close, false) && StopsNumber(close)
    ensures Accepted(Join(PrintElems(vs, gap, indent), [COMMA] + w) + close, true)
    decreases vs, 2
  {
    var more := PrintElems(vs[1..], gap, indent);
    var body := Join(more, [COMMA] + w) + close;
    var after := if more == [] then close else [COMMA] + w + body;
    if more != [] {
      AcceptedElems(vs[1..], gap, indent, w, close);
      AcceptedSeparator(COMMA, w, body);
    }
    AcceptedPrinted(vs[0], gap, indent, after);
    JoinCons(OrNull(Print(vs[0], gap, indent)), more, [COMMA] + w, close);
  }

  /** A member starts with its key, so an object needs no armed start. */
  lemma {:induction false} AcceptedMembers(ms: seq<Member>, gap: Text, indent: Text, w: Text, close: Text)
    requires PrintMembers(ms, gap, indent) != [] && forall i :: 0 <= i < |ms| ==> WellFormed(ms[i].value)
    requires AllWs(gap) && AllWs(indent) && AllWs(w) && Accepted(close, false) && StopsNumber(close)
    ensures forall armed :: Accepted(Join(PrintMembers(ms, gap, indent), [COMMA] + w) + close, armed)
    decreases ms, 2
  {
    if ms[0].value == Undefined {
      AcceptedMembers(ms[1..], gap, indent, w, close);
    } else {
      var more := PrintMembers(ms[1..], gap, indent);
      var body := Join(more, [COMMA] + w) + close;
      var after := if more == [] then close else [COMMA] + w + body;
      if more != [] {
        AcceptedMembers(ms[1..], gap, indent, w, close);
        AcceptedSeparator(COMMA, w, body);
      }
      var printed := Print(ms[0].value, gap, indent).value;
      var first := Quote(ms[0].key) + KeySeparator(gap) + printed;
      AcceptedPrinted(ms[0].value, gap, indent, after);
      AcceptedMember(ms[0].key, gap, printed, after);
      JoinCons(first, more, [COMMA] + w, close);
      assert PrintMembers(ms, gap, indent) == [first] + more;
    }
  }

  lemma AcceptedMember(key: Text, gap: Text, printed: Text, after: Text)
    requires Accepted(printed + after, true)
    ensures forall armed :: Accepted(Quote(key) + KeySeparator(gap) + printed + after, armed)
  {
    var blank := KeySeparator(gap)[1..];
    AssociateMember(Quote(key), KeySeparator(gap), blank, printed, after);
    AcceptedSeparator(COLON, blank, printed + after);
    AcceptedQuote(key, [COLON] + blank + (printed + after), true);
    AcceptedQuote(key, [COLON] + blank + (printed + after), false);
  }

  // ---------------------------------------------------------------- stage one

  predicate NoCx(s: Text) {
    forall i :: 0 <= i < |s| ==> !IsCx(s[i])
  }

  predicate AllNoCx(parts: seq<Text>) {
    forall i :: 0 <= i < |parts| ==> NoCx(parts[i])
  }

  lemma HexHasNoCx(u: Unit)
    ensures NoCx(HexPad(u))
  {
    HexPadDigits(u);
    var h := HexPad(u);
    HexIsNoCx(h[0]);
    HexIsNoCx(h[1]);
    HexIsNoCx(h[2]);
    HexIsNoCx(h[3]);
    assert h == [h[0], h[1], h[2], h[3]];
  }

  lemma HexIsNoCx(u: Unit)
    requires IsHex(u)
    ensures !IsCx(u)
  {
  }

  lemma {:induction false} EscapeCxHasNoCx(t: Text)
    ensures NoCx(EscapeCx(t))
  {
    if t != [] {
      EscapeCxHasNoCx(t[1..]);
      HexHasNoCx(t[0]);
    }
  }

  lemma PreparedHasNoCx(text: Text)
    ensures NoCx(Prepared(text))
  {
    EscapeCxHasNoCx(text);
  }

  lemma EscapeUnitHasNoCx(u: Unit)
    ensures NoCx(EscapeUnit(u))
  {
    HexHasNoCx(u);
  }

  lemma {:induction false} EscapeHasNoCx(x: Text)
    ensures NoCx(Escape(x))
  {
    if x != [] {
      EscapeHasNoCx(x[1..]);
      EscapeUnitHasNoCx(x[0]);
    }
  }

  lemma {:induction false} JoinHasNoCx(parts: seq<Text>, separator: Text)
    requires NoCx(separator) && AllNoCx(parts)
    ensures NoCx(Join(parts, separator))
  {
    if 1 < |parts| {
      JoinHasNoCx(parts[1..], separator);
    }
  }

  lemma QuoteHasNoCx(x: Text)
    ensures NoCx(Quote(x))
  {
    QuoteIsEscape(x);
    EscapeHasNoCx(x);
  }

  lemma NumberHasNoCx(text: Text)
    requires IsNumber(text)
    ensures NoCx(text)
  {
    NumberUnits(text);
  }

  lemma WrapHasNoCx(open: Unit, close: Unit, partial: seq<Text>, gap: Text, mind: Text)
    requires !IsCx(open) && !IsCx(close) && AllWs(gap) && AllWs(mind)
    requires AllNoCx(partial)
    ensures NoCx(Wrap(open, close, partial, gap, mind))
  {
    JoinHasNoCx(partial, [COMMA, NEWLINE] + gap);
    JoinHasNoCx(partial, [COMMA]);
  }

  /** `quote` escapes every unit of `cx`, so the first pass finds nothing to change. */
  lemma {:induction false} PrintedHasNoCx(v: Value, gap: Text, indent: Text)
    requires WellFormed(v) && AllWs(gap) && AllWs(indent)
    ensures NoCx(OrNull(Print(v, gap, indent)))
    decreases v
  {
    match v
    case Number(text) => NumberHasNoCx(text);
    case Str(s) => QuoteHasNoCx(s);
    case Arr(elems) =>
      ElemsHaveNoCx(elems, gap + indent, indent);
      WrapHasNoCx(OPEN_BRACKET, CLOSE_BRACKET, PrintElems(elems, gap + indent, indent), gap + indent, gap);
    case Obj(members) =>
      MembersHaveNoCx(members, gap + indent, indent);
      WrapHasNoCx(OPEN_BRACE, CLOSE_BRACE, PrintMembers(members, gap + indent, indent), gap + indent, gap);
    case _ => assert NoCx(NULL) && NoCx(TRUE) && NoCx(FALSE);
  }

  lemma {:induction false} ElemsHaveNoCx(vs: seq<Value>, gap: Text, indent: Text)
    requires (forall i :: 0 <= i < |vs| ==> WellFormed(vs[i])) && AllWs(gap) && AllWs(indent)
    ensures AllNoCx(PrintElems(vs, gap, indent))
    decreases vs
  {
    if vs != [] {
      PrintedHasNoCx(vs[0], gap, indent);
      ElemsHaveNoCx(vs[1..], gap, indent);
    }
  }

  lemma {:induction false} MembersHaveNoCx(ms: seq<Member>, gap: Text, indent: Text)
    requires (forall i :: 0 <= i < |ms| ==> WellFormed(ms[i].value)) && AllWs(gap) && AllWs(indent)
    ensures AllNoCx(PrintMembers(ms, gap, indent))
    decreases ms
  {
    if ms != [] {
      PrintedHasNoCx(ms[0].value, gap, indent);
      MembersHaveNoCx(ms[1..], gap, indent);
      QuoteHasNoCx(ms[0].key);
    }
  }

  // ---------------------------------------------------------------- main results

  /** The guard lets through every text the printer emits with a whitespace indent. */
  lemma GuardAcceptsPrinted(v: Value, indent: Text)
    requires WellFormed(v) && v != Undefined && AllWs(indent)
    ensures Guard(Print(v, [], indent).value)
  {
    var text := Print(v, [], indent).value;
    PrintStart(v, [], indent);
    AcceptedPrinted(v, [], indent, []);
    assert text + [] == text;
    StripLeavesSafe(BlankTokens(BlankEscapes(text)), true);
  }

  /** JSON.parse undoes JSON.stringify, for every value and every whitespace indent. */
  lemma ParseUndoesStringify(v: Value, indent: Text)
    requires WellFormed(v) && AllWs(indent)
    ensures Print(v, [], indent) == None <==> v == Undefined
    ensures v != Undefined ==> Parse(Print(v, [], indent).value) == Success(Norm(v))
  {
    if v != Undefined {
      PrintStart(v, [], indent);
      PrintedHasNoCx(v, [], indent);
      GuardAcceptsPrinted(v, indent);
      EvalPrinted(v, indent);
    }
  }
}
