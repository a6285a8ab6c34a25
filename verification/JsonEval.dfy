/** The evaluation stage of JSON.parse, as a recursive-descent reader of the grammar of
    RFC 4627 section 2, and its agreement with the printer.

    Each reader takes the longest prefix that its rule describes. A repeated key keeps its first place
    and its last value, as an object literal does. */
module JsonEval {
  import opened Wrappers
  import opened JsonText
  import opened JsonPrinter

  datatype Read<T> = Read(value: T, rest: Text)

  function SkipWs(s: Text): (r: Text)
    ensures |r| <= |s|
  {
    if s != [] && IsWs(s[0]) then SkipWs(s[1..]) else s
  }

  predicate StartsWith(s: Text, prefix: Text) {
    |prefix| <= |s| && s[..|prefix|] == prefix
  }

  // -------------------------------------------------------------------- strings

  /** The unit denoted by the letter of a two-unit escape, section 2.5. */
  function SimpleEscape(u: Unit): Option<Unit> {
    if u == QUOTE || u == BACKSLASH || u == SLASH then Some(u)
    else if u == LETTER_B then Some(BACKSPACE)
    else if u == LETTER_F then Some(FORM_FEED)
    else if u == LETTER_N then Some(NEWLINE)
    else if u == LETTER_R then Some(RETURN)
    else if u == LETTER_T then Some(TAB)
    else None
  }

  predicate IsHex4(s: Text) {
    4 <= |s| && IsHex(s[0]) && IsHex(s[1]) && IsHex(s[2]) && IsHex(s[3])
  }

  /** Reads one possibly escaped unit of a string body; None at its end or when malformed. */
  function ReadUnit(s: Text): (r: Option<Read<Unit>>)
    ensures r.Some? ==> |r.value.rest| < |s|
  {
    if s == [] || s[0] == QUOTE || s[0] < 0x20 then None
    else if s[0] != BACKSLASH then Some(Read(s[0], s[1..]))
    else if |s| < 2 then None
    else if s[1] == LETTER_U then
      if IsHex4(s[2..]) then Some(Read(HexValue4(s[2], s[3], s[4], s[5]), s[6..])) else None
    else match SimpleEscape(s[1])
      case Some(u) => Some(Read(u, s[2..]))
      case None => None
  }

  /** Reads a string body up to and including its closing quotation mark. */
  function ReadBody(s: Text): (r: Option<Read<Text>>)
    ensures r.Some? ==> |r.value.rest| < |s|
    decreases |s|
  {
    if s != [] && s[0] == QUOTE then Some(Read([], s[1..]))
    else match ReadUnit(s)
      case None => None
      case Some(first) =>
        match ReadBody(first.rest)
        case None => None
        case Some(more) => Some(Read([first.value] + more.value, more.rest))
  }

  // --------------------------------------------------------------------- values

  function ReadNumber(s: Text): (r: Option<Read<Value>>)
    ensures r.Some? ==> |r.value.rest| < |s|
  {
    var n := NumberLen(s);
    if n == 0 then None else Some(Read(Number(s[..n]), s[n..]))
  }

  function ReadValue(s: Text): (r: Option<Read<Value>>)
    ensures r.Some? ==> |r.value.rest| < |s|
    decreases |s|, 0
  {
    if s == [] then None
    else if s[0] == QUOTE then
      match ReadBody(s[1..])
      case None => None
      case Some(body) => Some(Read(Str(body.value), body.rest))
    else if s[0] == OPEN_BRACKET then
      var t := SkipWs(s[1..]);
      if t != [] && t[0] == CLOSE_BRACKET then Some(Read(Arr([]), t[1..]))
      else (match ReadElems(t)
        case None => None
        case Some(elems) => Some(Read(Arr(elems.value), elems.rest)))
    else if s[0] == OPEN_BRACE then
      var t := SkipWs(s[1..]);
      if t != [] && t[0] == CLOSE_BRACE then Some(Read(Obj([]), t[1..]))
      else (match ReadMembers(t)
        case None => None
        case Some(members) => Some(Read(Obj(LastWins(members.value)), members.rest)))
    else if s[0] == MINUS || IsDigit(s[0]) then ReadNumber(s)
    else if StartsWith(s, TRUE) then Some(Read(Bool(true), s[4..]))
    else if StartsWith(s, FALSE) then Some(Read(Bool(false), s[5..]))
    else if StartsWith(s, NULL) then Some(Read(Null, s[4..]))
    else None
  }

  /** value *( value-separator value ) end-array */
  function ReadElems(s: Text): (r: Option<Read<seq<Value>>>)
    ensures r.Some? ==> |r.value.rest| < |s|
    decreases |s|, 1
  {
    match ReadValue(s)
    case None => None
    case Some(first) =>
      var t := SkipWs(first.rest);
      if t != [] && t[0] == CLOSE_BRACKET then Some(Read([first.value], t[1..]))
      else if t != [] && t[0] == COMMA then
        (match ReadElems(SkipWs(t[1..]))
        case None => None
        case Some(more) => Some(Read([first.value] + more.value, more.rest)))
      else None
  }

  /** string name-separator value */
  function ReadMember(s: Text): (r: Option<Read<Member>>)
    ensures r.Some? ==> |r.value.rest| < |s|
    decreases |s|, 1
  {
    if s == [] || s[0] != QUOTE then None
    else match ReadBody(s[1..])
      case None => None
      case Some(key) =>
        var t := SkipWs(key.rest);
        if t == [] || t[0] != COLON then None
        else match ReadValue(SkipWs(t[1..]))
          case None => None
          case Some(v) => Some(Read(Member(key.value, v.value), v.rest))
  }

  /** member *( value-separator member ) end-object */
  function ReadMembers(s: Text): (r: Option<Read<seq<Member>>>)
    ensures r.Some? ==> |r.value.rest| < |s|
    decreases |s|, 2
  {
    match ReadMember(s)
    case None => None
    case Some(first) =>
      var t := SkipWs(first.rest);
      if t != [] && t[0] == CLOSE_BRACE then Some(Read([first.value], t[1..]))
      else if t != [] && t[0] == COMMA then
        (match ReadMembers(SkipWs(t[1..]))
        case None => None
        case Some(more) => Some(Read([first.value] + more.value, more.rest)))
      else None
  }

  /** An object literal that repeats a key keeps the last value in the first place. */
  function LastWins(ms: seq<Member>): seq<Member> {
    if ms == [] then []
    else Put(LastWins(ms[..|ms| - 1]), ms[|ms| - 1])
  }

  function Put(ms: seq<Member>, m: Member): seq<Member> {
    if ms == [] then [m]
    else if ms[0].key == m.key then [m] + ms[1..]
    else [ms[0]] + Put(ms[1..], m)
  }

  /** JSON-text = object / array, relaxed to any value as `eval` is. */
  function Eval(s: Text): Option<Value> {
    match ReadValue(SkipWs(s))
    case None => None
    case Some(r) => if SkipWs(r.rest) == [] then Some(r.value) else None
  }

  // ------------------------------------------------------------ reading back

  /** What printing forgets: undefined members are dropped, undefined elements and
      non-finite numbers become null. */
  function Norm(v: Value): Value {
    match v
    case NonFinite => Null
    case Arr(elems) => Arr(NormElems(elems))
    case Obj(members) => Obj(NormMembers(members))
    case _ => v
  }

  function NormElems(vs: seq<Value>): (r: seq<Value>)
    ensures |r| == |vs|
  {
    if vs == [] then [] else [if vs[0] == Undefined then Null else Norm(vs[0])] + NormElems(vs[1..])
  }

  function NormMembers(ms: seq<Member>): seq<Member> {
    if ms == [] then []
    else if ms[0].value == Undefined then NormMembers(ms[1..])
    else [Member(ms[0].key, Norm(ms[0].value))] + NormMembers(ms[1..])
  }

  lemma {:induction false} SkipWsOver(w: Text, s: Text)
    requires AllWs(w)
    ensures SkipWs(w + s) == SkipWs(s)
  {
    if w == [] {
      assert w + s == s;
    } else {
      assert (w + s)[1..] == w[1..] + s;
      SkipWsOver(w[1..], s);
    }
  }

  lemma ReadHex(u: Unit, s: Text)
    ensures ReadUnit([BACKSLASH, LETTER_U] + HexPad(u) + s) == Some(Read(u, s))
  {
    var h := HexPad(u);
    HexPadDigits(u);
    var t := [BACKSLASH, LETTER_U] + h + s;
    assert t[0] == BACKSLASH && t[1] == LETTER_U;
    assert t[2] == h[0] && t[3] == h[1] && t[4] == h[2] && t[5] == h[3];
    assert t[2..] == h + s && t[6..] == s;
  }

  lemma ReadEscaped(u: Unit, s: Text)
    ensures ReadUnit((if IsEscapable(u) then EscapeUnit(u) else [u]) + s) == Some(Read(u, s))
  {
    if !IsEscapable(u) {
      assert ([u] + s)[1..] == s;
    } else {
      var e := EscapeUnit(u);
      if e[1] == LETTER_U {
        ReadHex(u, s);
      } else {
        assert |e| == 2;
        assert (e + s)[2..] == s;
      }
    }
  }

  /** Unescaping undoes `quote` for every sequence of code units. */
  lemma {:induction false} ReadEscape(x: Text, rest: Text)
    ensures ReadBody(Escape(x) + [QUOTE] + rest) == Some(Read(x, rest))
  {
    var t := Escape(x) + [QUOTE] + rest;
    if x == [] {
      assert t[1..] == rest;
    } else {
      var head := if IsEscapable(x[0]) then EscapeUnit(x[0]) else [x[0]];
      var tail := Escape(x[1..]) + [QUOTE] + rest;
      assert t == head + tail;
      ReadEscaped(x[0], tail);
      ReadEscape(x[1..], rest);
      assert t[0] == head[0] != QUOTE;
      assert [x[0]] + x[1..] == x;
    }
  }

  lemma {:induction false} EscapeOfPlain(x: Text)
    requires forall i :: 0 <= i < |x| ==> !IsEscapable(x[i])
    ensures Escape(x) == x
  {
    if x != [] {
      EscapeOfPlain(x[1..]);
    }
  }

  lemma QuoteIsEscape(x: Text)
    ensures Quote(x) == [QUOTE] + Escape(x) + [QUOTE]
  {
    if !(exists i :: 0 <= i < |x| && IsEscapable(x[i])) {
      EscapeOfPlain(x);
    }
  }

  lemma ReadQuote(x: Text, rest: Text)
    ensures ReadValue(Quote(x) + rest) == Some(Read(Str(x), rest))
  {
    QuoteIsEscape(x);
    ReadEscape(x, rest);
    assert (Quote(x) + rest)[1..] == Escape(x) + [QUOTE] + rest;
  }
}
