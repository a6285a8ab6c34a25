/** Reading what `str` printed gives back the value, at every gap and indent of whitespace.

    The induction follows the value. The texts of lists are cut at their marks: whitespace after the
    opening mark and after each comma, and whitespace before the closing mark. */
module JsonRoundTrip {
  import opened Wrappers
  import opened JsonText
  import opened JsonPrinter
  import opened JsonEval

  /** The unit a printed value starts with: never whitespace, a closing mark or a separator. */
  predicate StartsValue(u: Unit) {
    || u == QUOTE || u == OPEN_BRACKET || u == OPEN_BRACE || u == MINUS || IsDigit(u)
    || u == LETTER_T || u == LETTER_F || u == LETTER_N
  }

  lemma PrintStart(v: Value, gap: Text, indent: Text)
    requires WellFormed(v) && v != Undefined
    ensures var t := Print(v, gap, indent); t.Some? && t.value != [] && StartsValue(t.value[0])
  {
    if v.Number? {
      NumberUnits(v.text);
    } else if v.Str? {
      QuoteIsEscape(v.s);
    }
  }

  // ------------------------------------------------------------------- scalars

  lemma ReadNumberWhole(text: Text, rest: Text)
    requires IsNumber(text) && StopsNumber(rest)
    ensures ReadNumber(text + rest) == Some(Read(Number(text), rest))
  {
    NumberLenAppend(text, rest);
    assert (text + rest)[..|text|] == text && (text + rest)[|text|..] == rest;
  }

  lemma ReadPrintedNumber(text: Text, rest: Text)
    requires IsNumber(text) && StopsNumber(rest)
    ensures ReadValue(text + rest) == Some(Read(Number(text), rest))
  {
    ReadNumberWhole(text, rest);
    NumberUnits(text);
    ReadValueAtDigit(text + rest);
  }

  lemma ReadValueAtDigit(s: Text)
    requires s != [] && (s[0] == MINUS || IsDigit(s[0]))
    ensures ReadValue(s) == ReadNumber(s)
  {
    assert s[0] != QUOTE && s[0] != OPEN_BRACKET && s[0] != OPEN_BRACE;
  }

  // ---------------------------------------------------------------------- keys

  lemma {:induction false} LastWinsOfUnique(ms: seq<Member>)
    requires UniqueKeys(ms)
    ensures LastWins(ms) == ms
  {
    if ms != [] {
      var front := ms[..|ms| - 1];
      LastWinsOfUnique(front);
      PutNew(front, ms[|ms| - 1]);
    }
  }

  lemma {:induction false} PutNew(ms: seq<Member>, m: Member)
    requires forall i :: 0 <= i < |ms| ==> ms[i].key != m.key
    ensures Put(ms, m) == ms + [m]
  {
    if ms != [] {
      PutNew(ms[1..], m);
    }
  }

  lemma {:induction false} NormMembersKeys(ms: seq<Member>)
    requires UniqueKeys(ms)
    ensures UniqueKeys(NormMembers(ms))
    ensures forall m :: m in NormMembers(ms) ==> exists i :: 0 <= i < |ms| && ms[i].key == m.key
  {
    if ms != [] {
      var more := NormMembers(ms[1..]);
      NormMembersKeys(ms[1..]);
      forall m | m in more
        ensures exists i :: 1 <= i < |ms| && ms[i].key == m.key
      {
        var i :| 0 <= i < |ms[1..]| && ms[1..][i].key == m.key;
        assert ms[i + 1].key == m.key;
      }
      forall j | 0 <= j < |more|
        ensures more[j].key != ms[0].key
      {
        assert more[j] in more;
      }
    }
  }

  // ------------------------------------------- one step of each list reader

  lemma SkipWsToValue(u: Unit, w: Text, body: Text)
    requires !IsWs(u) && AllWs(w) && body != [] && StartsValue(body[0])
    ensures var s := [u] + w + body; s[0] == u && SkipWs(s) == s && SkipWs(s[1..]) == body
  {
    Associate([u], w, body);
    SkipWsOver(w, body);
  }

  lemma ReadArrayOver(w: Text, body: Text, vs: seq<Value>, rest: Text)
    requires AllWs(w) && body != [] && StartsValue(body[0])
    requires ReadElems(body) == Some(Read(vs, rest))
    ensures ReadValue([OPEN_BRACKET] + w + body) == Some(Read(Arr(vs), rest))
  {
    SkipWsToValue(OPEN_BRACKET, w, body);
  }

  lemma ReadObjectOver(w: Text, body: Text, ms: seq<Member>, rest: Text)
    requires AllWs(w) && body != [] && StartsValue(body[0]) && UniqueKeys(ms)
    requires ReadMembers(body) == Some(Read(ms, rest))
    ensures ReadValue([OPEN_BRACE] + w + body) == Some(Read(Obj(ms), rest))
  {
    SkipWsToValue(OPEN_BRACE, w, body);
    LastWinsOfUnique(ms);
  }

  lemma ReadLastElem(s: Text, v: Value, end: Text, rest: Text)
    requires AllWs(end) && ReadValue(s) == Some(Read(v, end + [CLOSE_BRACKET] + rest))
    ensures ReadElems(s) == Some(Read([v], rest))
  {
    Associate(end, [CLOSE_BRACKET], rest);
    SkipWsOver(end, [CLOSE_BRACKET] + rest);
  }

  lemma ReadNextElem(s: Text, v: Value, w: Text, body: Text, vs: seq<Value>, rest: Text)
    requires AllWs(w) && body != [] && StartsValue(body[0])
    requires ReadValue(s) == Some(Read(v, [COMMA] + w + body))
    requires ReadElems(body) == Some(Read(vs, rest))
    ensures ReadElems(s) == Some(Read([v] + vs, rest))
  {
    SkipWsToValue(COMMA, w, body);
  }

  lemma ReadLastMember(s: Text, m: Member, end: Text, rest: Text)
    requires AllWs(end) && ReadMember(s) == Some(Read(m, end + [CLOSE_BRACE] + rest))
    ensures ReadMembers(s) == Some(Read([m], rest))
  {
    Associate(end, [CLOSE_BRACE], rest);
    SkipWsOver(end, [CLOSE_BRACE] + rest);
  }

  lemma ReadNextMember(s: Text, m: Member, w: Text, body: Text, ms: seq<Member>, rest: Text)
    requires AllWs(w) && body != [] && StartsValue(body[0])
    requires ReadMember(s) == Some(Read(m, [COMMA] + w + body))
    requires ReadMembers(body) == Some(Read(ms, rest))
    ensures ReadMembers(s) == Some(Read([m] + ms, rest))
  {
    SkipWsToValue(COMMA, w, body);
  }

  lemma ReadMemberOver(key: Text, blank: Text, body: Text, v: Value, rest: Text)
    requires AllWs(blank) && body != [] && StartsValue(body[0])
    requires ReadValue(body) == Some(Read(v, rest))
    ensures ReadMember(Quote(key) + ([COLON] + blank + body)) == Some(Read(Member(key, v), rest))
  {
    var after := [COLON] + blank + body;
    ReadKey(key, after);
    SkipWsToValue(COLON, blank, body);
  }

  lemma ReadKey(key: Text, after: Text)
    ensures var s := Quote(key) + after;
            s[0] == QUOTE && ReadBody(s[1..]) == Some(Read(key, after))
  {
    QuoteIsEscape(key);
    ReadEscape(key, after);
    assert (Quote(key) + after)[1..] == Escape(key) + [QUOTE] + after;
  }

  // ------------------------------------------------------------------- nesting

  /** The main induction: whatever follows, reading takes exactly the printed text. */
  lemma {:induction false} ReadPrinted(v: Value, gap: Text, indent: Text, rest: Text)
    requires WellFormed(v) && v != Undefined && AllWs(gap) && AllWs(indent) && StopsNumber(rest)
    ensures ReadValue(Print(v, gap, indent).value + rest) == Some(Read(Norm(v), rest))
    decreases v, 1
  {
    match v
    case Null =>
    case Bool(b) =>
    case NonFinite =>
    case Number(text) => ReadPrintedNumber(text, rest);
    case Str(s) => ReadQuote(s, rest);
    case Arr(elems) => ReadPrintedArray(elems, gap, indent, rest);
    case Obj(members) => ReadPrintedObject(members, gap, indent, rest);
  }

  /** A non-empty Wrap, cut at its marks: whitespace after the opening mark and after each
      comma, and whitespace before the closing mark. */
  lemma WrapShape(open: Unit, close: Unit, partial: seq<Text>, gap: Text, mind: Text, rest: Text)
    returns (w: Text, end: Text)
    requires AllWs(gap) && AllWs(mind) && partial != []
    ensures AllWs(w) && AllWs(end)
    ensures Wrap(open, close, partial, gap, mind) + rest
         == [open] + w + (Join(partial, [COMMA] + w) + (end + [close] + rest))
  {
    if gap != [] {
      w, end := [NEWLINE] + gap, [NEWLINE] + mind;
      assert [COMMA] + w == [COMMA, NEWLINE] + gap;
      assert [open] + w == [open, NEWLINE] + gap;
    } else {
      w, end := [], [];
      assert [COMMA] + w == [COMMA];
    }
  }

  lemma {:induction false} ReadPrintedArray(elems: seq<Value>, gap: Text, indent: Text, rest: Text)
    requires WellFormed(Arr(elems)) && AllWs(gap) && AllWs(indent) && StopsNumber(rest)
    ensures ReadValue(Print(Arr(elems), gap, indent).value + rest) == Some(Read(Norm(Arr(elems)), rest))
    decreases elems, 3
  {
    var inner := gap + indent;
    var partial := PrintElems(elems, inner, indent);
    var text := Wrap(OPEN_BRACKET, CLOSE_BRACKET, partial, inner, gap);
    if elems != [] {
      var w, end := WrapShape(OPEN_BRACKET, CLOSE_BRACKET, partial, inner, gap, rest);
      var body := Join(partial, [COMMA] + w) + (end + [CLOSE_BRACKET] + rest);
      ReadPrintedElems(elems, inner, indent, w, end, rest);
      ReadArrayOver(w, body, NormElems(elems), rest);
    }
  }

  lemma JoinCons(first: Text, more: seq<Text>, separator: Text, tail: Text)
    ensures Join([first] + more, separator) + tail
         == first + (if more == [] then tail else separator + (Join(more, separator) + tail))
  {
    assert ([first] + more)[1..] == more;
  }

  lemma {:induction false} ReadPrintedElems(vs: seq<Value>, gap: Text, indent: Text, w: Text, end: Text, rest: Text)
    requires vs != [] && forall i :: 0 <= i < |vs| ==> WellFormed(vs[i])
    requires AllWs(gap) && AllWs(indent) && AllWs(w) && AllWs(end)
    ensures var body := Join(PrintElems(vs, gap, indent), [COMMA] + w) + (end + [CLOSE_BRACKET] + rest);
            body != [] && StartsValue(body[0]) && ReadElems(body) == Some(Read(NormElems(vs), rest))
    decreases vs, 2
  {
    var close := end + [CLOSE_BRACKET] + rest;
    var more := PrintElems(vs[1..], gap, indent);
    var body := Join(more, [COMMA] + w) + close;
    var after := if more == [] then close else [COMMA] + w + body;
    var first := OrNull(Print(vs[0], gap, indent));
    var v := if vs[0] == Undefined then Null else Norm(vs[0]);
    ReadPrintedElem(vs[0], gap, indent, after);
    if more == [] {
      ReadLastElem(first + after, v, end, rest);
      assert NormElems(vs) == [v] + NormElems(vs[1..]) == [v];
    } else {
      ReadPrintedElems(vs[1..], gap, indent, w, end, rest);
      ReadNextElem(first + after, v, w, body, NormElems(vs[1..]), rest);
    }
    JoinCons(first, more, [COMMA] + w, close);
  }

  lemma {:induction false} ReadPrintedElem(v: Value, gap: Text, indent: Text, rest: Text)
    requires WellFormed(v) && AllWs(gap) && AllWs(indent) && StopsNumber(rest)
    ensures var text := OrNull(Print(v, gap, indent));
            && text != [] && StartsValue(text[0])
            && ReadValue(text + rest) == Some(Read(if v == Undefined then Null else Norm(v), rest))
    decreases v, 2
  {
    if v != Undefined {
      PrintStart(v, gap, indent);
      ReadPrinted(v, gap, indent, rest);
    }
  }

  lemma {:induction false} ReadPrintedObject(ms: seq<Member>, gap: Text, indent: Text, rest: Text)
    requires WellFormed(Obj(ms)) && AllWs(gap) && AllWs(indent) && StopsNumber(rest)
    ensures ReadValue(Print(Obj(ms), gap, indent).value + rest) == Some(Read(Norm(Obj(ms)), rest))
    decreases ms, 3
  {
    var inner := gap + indent;
    var partial := PrintMembers(ms, inner, indent);
    var text := Wrap(OPEN_BRACE, CLOSE_BRACE, partial, inner, gap);
    NoMembers(ms, inner, indent);
    if partial != [] {
      var w, end := WrapShape(OPEN_BRACE, CLOSE_BRACE, partial, inner, gap, rest);
      var body := Join(partial, [COMMA] + w) + (end + [CLOSE_BRACE] + rest);
      ReadPrintedMembers(ms, inner, indent, w, end, rest);
      NormMembersKeys(ms);
      ReadObjectOver(w, body, NormMembers(ms), rest);
    }
  }

  lemma {:induction false} NoMembers(ms: seq<Member>, gap: Text, indent: Text)
    ensures PrintMembers(ms, gap, indent) == [] <==> NormMembers(ms) == []
  {
    if ms != [] {
      NoMembers(ms[1..], gap, indent);
    }
  }

  lemma {:induction false} ReadPrintedMembers(ms: seq<Member>, gap: Text, indent: Text, w: Text, end: Text, rest: Text)
    requires PrintMembers(ms, gap, indent) != [] && forall i :: 0 <= i < |ms| ==> WellFormed(ms[i].value)
    requires AllWs(gap) && AllWs(indent) && AllWs(w) && AllWs(end)
    ensures var body := Join(PrintMembers(ms, gap, indent), [COMMA] + w) + (end + [CLOSE_BRACE] + rest);
            body != [] && StartsValue(body[0]) && ReadMembers(body) == Some(Read(NormMembers(ms), rest))
    decreases ms, 2
  {
    if ms[0].value == Undefined {
      ReadPrintedMembers(ms[1..], gap, indent, w, end, rest);
    } else {
      var close := end + [CLOSE_BRACE] + rest;
      var more := PrintMembers(ms[1..], gap, indent);
      var body := Join(more, [COMMA] + w) + close;
      var after := if more == [] then close else [COMMA] + w + body;
      var first := Quote(ms[0].key) + KeySeparator(gap) + Print(ms[0].value, gap, indent).value;
      var m := Member(ms[0].key, Norm(ms[0].value));
      ReadPrintedMember(ms[0], gap, indent, after);
      NoMembers(ms[1..], gap, indent);
      if more == [] {
        ReadLastMember(first + after, m, end, rest);
        assert NormMembers(ms) == [m] + NormMembers(ms[1..]) == [m];
      } else {
        ReadPrintedMembers(ms[1..], gap, indent, w, end, rest);
        ReadNextMember(first + after, m, w, body, NormMembers(ms[1..]), rest);
      }
      JoinCons(first, more, [COMMA] + w, close);
      assert PrintMembers(ms, gap, indent) == [first] + more;
      assert Join(PrintMembers(ms, gap, indent), [COMMA] + w) + close == first + after;
    }
  }

  lemma {:induction false} ReadPrintedMember(m: Member, gap: Text, indent: Text, rest: Text)
    requires WellFormed(m.value) && m.value != Undefined && AllWs(gap) && AllWs(indent) && StopsNumber(rest)
    ensures var text := Quote(m.key) + KeySeparator(gap) + Print(m.value, gap, indent).value;
            && text[0] == QUOTE
            && ReadMember(text + rest) == Some(Read(Member(m.key, Norm(m.value)), rest))
    decreases m, 1
  {
    var printed := Print(m.value, gap, indent).value;
    var blank := KeySeparator(gap)[1..];
    PrintStart(m.value, gap, indent);
    ReadPrinted(m.value, gap, indent, rest);
    ReadMemberOver(m.key, blank, printed + rest, Norm(m.value), rest);
    AssociateMember(Quote(m.key), KeySeparator(gap), blank, printed, rest);
  }

  lemma AssociateMember(key: Text, separator: Text, blank: Text, printed: Text, rest: Text)
    requires separator == [COLON] + blank
    ensures key + separator + printed + rest == key + ([COLON] + blank + (printed + rest))
  {
  }

  /** Evaluating what `stringify` printed, compact or indented, gives back the value. */
  lemma EvalPrinted(v: Value, indent: Text)
    requires WellFormed(v) && v != Undefined && AllWs(indent)
    ensures Eval(Print(v, [], indent).value) == Some(Norm(v))
  {
    var text := Print(v, [], indent).value;
    PrintStart(v, [], indent);
    ReadPrinted(v, [], indent, []);
    assert text + [] == text;
  }
}
