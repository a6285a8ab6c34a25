/** The printed text: the compact one is the indented one without its whitespace, strings are the shortest. */
module JsonCompact {
  import opened Wrappers
  import opened JsonText
  import opened JsonPrinter
  import opened JsonEval
  import opened JsonRoundTrip
  import opened JsonGuard
  import opened JsonSpelling

  // -------------------------------------------------------------- no whitespace

  /** The text without the whitespace outside its string literals. */
  function Squeeze(s: Text): Text
    decreases |s|
  {
    if s == [] then []
    else if s[0] == QUOTE then [QUOTE] + SqueezeString(s[1..])
    else if IsWs(s[0]) then Squeeze(s[1..])
    else [s[0]] + Squeeze(s[1..])
  }

  /** The same from inside a literal on. */
  function SqueezeString(s: Text): Text
    decreases |s|
  {
    if s == [] then []
    else if s[0] == QUOTE then [QUOTE] + Squeeze(s[1..])
    else if s[0] == BACKSLASH && 1 < |s| then s[..2] + SqueezeString(s[2..])
    else [s[0]] + SqueezeString(s[1..])
  }

  lemma {:induction false} SqueezeOver(x: Text, s: Text)
    requires forall i :: 0 <= i < |x| ==> x[i] != QUOTE && !IsWs(x[i])
    ensures Squeeze(x + s) == x + Squeeze(s)
  {
    if x == [] {
      assert x + s == s;
    } else {
      assert (x + s)[1..] == x[1..] + s;
      SqueezeOver(x[1..], s);
      Associate([x[0]], x[1..], Squeeze(s));
    }
  }

  lemma {:induction false} SqueezeWs(w: Text, s: Text)
    requires AllWs(w)
    ensures Squeeze(w + s) == Squeeze(s)
  {
    if w == [] {
      assert w + s == s;
    } else {
      assert (w + s)[1..] == w[1..] + s;
      SqueezeWs(w[1..], s);
    }
  }

  lemma SqueezeMark(u: Unit, w: Text, s: Text)
    requires u != QUOTE && !IsWs(u) && AllWs(w)
    ensures Squeeze([u] + w + s) == [u] + Squeeze(s)
  {
    Associate([u], w, s);
    SqueezeWs(w, s);
  }

  lemma {:induction false} SqueezeBody(x: Text, s: Text)
    requires forall i :: 0 <= i < |x| ==> x[i] != QUOTE && x[i] != BACKSLASH
    ensures SqueezeString(x + s) == x + SqueezeString(s)
  {
    if x == [] {
      assert x + s == s;
    } else {
      assert (x + s)[1..] == x[1..] + s;
      SqueezeBody(x[1..], s);
      Associate([x[0]], x[1..], SqueezeString(s));
    }
  }

  lemma SqueezeGlyph(g: Glyph, s: Text)
    requires LegalGlyph(g)
    ensures SqueezeString(SpellGlyph(g) + s) == SpellGlyph(g) + SqueezeString(s)
  {
    var t := SpellGlyph(g) + s;
    match g
    case Raw(u) => assert t[1..] == s;
    case Short(u) => assert t[2..] == s && t[..2] == SpellGlyph(g);
    case Hex(u, a, b, c, d) =>
      var h := FourDigits(u, a, b, c, d);
      assert t[2..] == h + s && t[..2] == [BACKSLASH, LETTER_U];
      SqueezeBody(h, s);
      Associate([BACKSLASH, LETTER_U], h, SqueezeString(s));
  }

  lemma {:induction false} SqueezeGlyphs(gs: seq<Glyph>, s: Text)
    requires LegalGlyphs(gs)
    ensures SqueezeString(SpellGlyphs(gs) + s) == SpellGlyphs(gs) + SqueezeString(s)
  {
    if gs == [] {
      assert SpellGlyphs(gs) + s == s && [] + SqueezeString(s) == SqueezeString(s);
    } else {
      Associate(SpellGlyph(gs[0]), SpellGlyphs(gs[1..]), s);
      SqueezeGlyph(gs[0], SpellGlyphs(gs[1..]) + s);
      SqueezeGlyphs(gs[1..], s);
      Associate(SpellGlyph(gs[0]), SpellGlyphs(gs[1..]), SqueezeString(s));
    }
  }

  lemma SqueezeQuote(x: Text, s: Text)
    ensures Squeeze(Quote(x) + s) == Quote(x) + Squeeze(s)
  {
    var gs := QuoteIsSpelling(x);
    var body := SpellGlyphs(gs);
    Bracketed(QUOTE, body, QUOTE, s);
    SqueezeGlyphs(gs, [QUOTE] + s);
    assert ([QUOTE] + s)[1..] == s;
    Bracketed(QUOTE, body, QUOTE, Squeeze(s));
  }

  lemma SqueezeNumber(text: Text, s: Text)
    requires IsNumber(text)
    ensures Squeeze(text + s) == text + Squeeze(s)
  {
    NumberUnits(text);
    SqueezeOver(text, s);
  }

  /** The main induction: the whitespace of the indented text is all that is left out. */
  lemma {:induction false} SqueezePrinted(v: Value, gap: Text, indent: Text, rest: Text)
    requires WellFormed(v) && AllWs(gap) && AllWs(indent)
    ensures Squeeze(OrNull(Print(v, gap, indent)) + rest) == OrNull(Print(v, [], [])) + Squeeze(rest)
    decreases v, 1
  {
    match v
    case Number(text) => SqueezeNumber(text, rest);
    case Str(s) => SqueezeQuote(s, rest);
    case Arr(elems) => SqueezeArray(elems, gap, indent, rest);
    case Obj(members) => SqueezeObject(members, gap, indent, rest);
    case _ => SqueezeOver(OrNull(Print(v, gap, indent)), rest);
  }

  /** Brackets around parts that are squeezed. */
  lemma SqueezeWrap(open: Unit, close: Unit, partial: seq<Text>, tight: seq<Text>, gap: Text, mind: Text, rest: Text)
    requires open != QUOTE && !IsWs(open) && close != QUOTE && !IsWs(close)
    requires AllWs(gap) && AllWs(mind) && |partial| == |tight|
    requires partial != [] ==> forall w, end :: AllWs(w) ==>
               Squeeze(Join(partial, [COMMA] + w) + end) == Join(tight, [COMMA]) + Squeeze(end)
    ensures Squeeze(Wrap(open, close, partial, gap, mind) + rest) == Wrap(open, close, tight, [], []) + Squeeze(rest)
  {
    if partial == [] {
      SqueezeOver([open, close], rest);
    } else {
      var w, end := WrapShape(open, close, partial, gap, mind, rest);
      var tail := end + [close] + rest;
      SqueezeMark(open, w, Join(partial, [COMMA] + w) + tail);
      Associate(end, [close], rest);
      SqueezeWs(end, [close] + rest);
      SqueezeOver([close], rest);
      Bracketed(open, Join(tight, [COMMA]), close, Squeeze(rest));
    }
  }

  lemma {:induction false} SqueezeArray(elems: seq<Value>, gap: Text, indent: Text, rest: Text)
    requires WellFormed(Arr(elems)) && AllWs(gap) && AllWs(indent)
    ensures Squeeze(Print(Arr(elems), gap, indent).value + rest) == Print(Arr(elems), [], []).value + Squeeze(rest)
    decreases elems, 3
  {
    var inner := gap + indent;
    var partial, tight := PrintElems(elems, inner, indent), PrintElems(elems, [], []);
    if elems != [] {
      forall w, end | AllWs(w)
        ensures Squeeze(Join(partial, [COMMA] + w) + end) == Join(tight, [COMMA]) + Squeeze(end)
      {
        SqueezeElems(elems, inner, indent, w, end);
      }
    }
    var none: Text := [];
    assert none + none == none;
    SqueezeWrap(OPEN_BRACKET, CLOSE_BRACKET, partial, tight, inner, gap, rest);
  }

  lemma {:induction false} SqueezeElems(vs: seq<Value>, gap: Text, indent: Text, w: Text, end: Text)
    requires vs != [] && (forall i :: 0 <= i < |vs| ==> WellFormed(vs[i])) && AllWs(gap) && AllWs(indent) && AllWs(w)
    ensures Squeeze(Join(PrintElems(vs, gap, indent), [COMMA] + w) + end) == Join(PrintElems(vs, [], []), [COMMA]) + Squeeze(end)
    decreases vs, 2
  {
    var first, more := OrNull(Print(vs[0], gap, indent)), PrintElems(vs[1..], gap, indent);
    var tight, rest := OrNull(Print(vs[0], [], [])), PrintElems(vs[1..], [], []);
    JoinCons(first, more, [COMMA] + w, end);
    JoinCons(tight, rest, [COMMA], Squeeze(end));
    if more == [] {
      SqueezePrinted(vs[0], gap, indent, end);
    } else {
      var tail := Join(more, [COMMA] + w) + end;
      SqueezePrinted(vs[0], gap, indent, [COMMA] + w + tail);
      SqueezeMark(COMMA, w, tail);
      SqueezeElems(vs[1..], gap, indent, w, end);
    }
  }

  lemma {:induction false} SqueezeObject(ms: seq<Member>, gap: Text, indent: Text, rest: Text)
    requires WellFormed(Obj(ms)) && AllWs(gap) && AllWs(indent)
    ensures Squeeze(Print(Obj(ms), gap, indent).value + rest) == Print(Obj(ms), [], []).value + Squeeze(rest)
    decreases ms, 3
  {
    var inner := gap + indent;
    var partial, tight := PrintMembers(ms, inner, indent), PrintMembers(ms, [], []);
    SameMembers(ms, inner, indent);
    if partial != [] {
      forall w, end | AllWs(w)
        ensures Squeeze(Join(partial, [COMMA] + w) + end) == Join(tight, [COMMA]) + Squeeze(end)
      {
        SqueezeMembers(ms, inner, indent, w, end);
      }
    }
    var none: Text := [];
    assert none + none == none;
    SqueezeWrap(OPEN_BRACE, CLOSE_BRACE, partial, tight, inner, gap, rest);
  }

  /** Which members are printed does not depend on the indent. */
  lemma {:induction false} SameMembers(ms: seq<Member>, gap: Text, indent: Text)
    ensures |PrintMembers(ms, gap, indent)| == |PrintMembers(ms, [], [])|
  {
    if ms != [] {
      SameMembers(ms[1..], gap, indent);
    }
  }

  lemma {:induction false} SqueezeMembers(ms: seq<Member>, gap: Text, indent: Text, w: Text, end: Text)
    requires (forall i :: 0 <= i < |ms| ==> WellFormed(ms[i].value)) && AllWs(gap) && AllWs(indent) && AllWs(w)
    requires PrintMembers(ms, gap, indent) != []
    ensures Squeeze(Join(PrintMembers(ms, gap, indent), [COMMA] + w) + end) == Join(PrintMembers(ms, [], []), [COMMA]) + Squeeze(end)
    decreases ms, 2
  {
    var more, rest := PrintMembers(ms[1..], gap, indent), PrintMembers(ms[1..], [], []);
    if ms[0].value == Undefined {
      SqueezeMembers(ms[1..], gap, indent, w, end);
    } else {
      var first := Quote(ms[0].key) + KeySeparator(gap) + Print(ms[0].value, gap, indent).value;
      var tight := Quote(ms[0].key) + KeySeparator([]) + Print(ms[0].value, [], []).value;
      assert PrintMembers(ms, gap, indent) == [first] + more && PrintMembers(ms, [], []) == [tight] + rest;
      SameMembers(ms[1..], gap, indent);
      JoinCons(first, more, [COMMA] + w, end);
      JoinCons(tight, rest, [COMMA], Squeeze(end));
      if more == [] {
        SqueezeMember(ms[0], gap, indent, end);
      } else {
        var tail := Join(more, [COMMA] + w) + end;
        SqueezeMember(ms[0], gap, indent, [COMMA] + w + tail);
        SqueezeMark(COMMA, w, tail);
        SqueezeMembers(ms[1..], gap, indent, w, end);
      }
    }
  }

  lemma {:induction false} SqueezeMember(m: Member, gap: Text, indent: Text, rest: Text)
    requires WellFormed(m.value) && m.value != Undefined && AllWs(gap) && AllWs(indent)
    ensures Squeeze(Quote(m.key) + KeySeparator(gap) + Print(m.value, gap, indent).value + rest)
         == Quote(m.key) + KeySeparator([]) + Print(m.value, [], []).value + Squeeze(rest)
    decreases m, 1
  {
    var printed, tight := Print(m.value, gap, indent).value, Print(m.value, [], []).value;
    var blank := KeySeparator(gap)[1..];
    AssociateMember(Quote(m.key), KeySeparator(gap), blank, printed, rest);
    SqueezeQuote(m.key, [COLON] + blank + (printed + rest));
    SqueezeMark(COLON, blank, printed + rest);
    SqueezePrinted(m.value, gap, indent, rest);
    Associate(Quote(m.key), [COLON], tight + Squeeze(rest));
    Associate(Quote(m.key) + [COLON], tight, Squeeze(rest));
  }

  /** Without the whitespace outside its literals, every printed text is the compact one; the compact text
      itself has none. */
  lemma IndentAddsOnlySpace(v: Value, indent: Text)
    requires WellFormed(v) && v != Undefined && AllWs(indent)
    ensures Squeeze(Print(v, [], indent).value) == Print(v, [], []).value
    ensures Squeeze(Print(v, [], []).value) == Print(v, [], []).value
  {
    var text, compact := Print(v, [], indent).value, Print(v, [], []).value;
    SqueezePrinted(v, [], indent, []);
    SqueezePrinted(v, [], [], []);
    assert text + [] == text && compact + [] == compact;
  }

  // ------------------------------------------------------------ shortest strings

  /** What may stand for itself in a printed string. */
  predicate MayStand(u: Unit) {
    0x20 <= u && u != 0x22 && u != 0x5C && !(0x7F <= u <= 0x9F) && !IsCx(u)
  }

  predicate Printable(gs: seq<Glyph>) {
    LegalGlyphs(gs) && forall i :: 0 <= i < |gs| && gs[i].Raw? ==> MayStand(gs[i].u)
  }

  /** How a unit is printed. */
  function Printed(u: Unit): (g: Glyph)
    ensures LegalGlyph(g) && g.u == u && (g.Raw? ==> MayStand(u)) && (g.Hex? ==> !g.a && !g.b && !g.c && !g.d)
  {
    if MayStand(u) then Raw(u) else if Letter(u).Some? then Short(u) else Hex(u, false, false, false, false)
  }

  lemma UnitIsSpelled(u: Unit)
    ensures (if IsEscapable(u) then EscapeUnit(u) else [u]) == SpellGlyph(Printed(u))
  {
    HexPadForm(u);
  }

  /** A printed string is a spelling in which nothing stands for itself that may not, with small digits. */
  lemma {:induction false} EscapeIsSpelling(x: Text) returns (gs: seq<Glyph>)
    ensures Printable(gs) && Units(gs) == x && Escape(x) == SpellGlyphs(gs)
    ensures forall i :: 0 <= i < |gs| && gs[i].Hex? ==> !gs[i].a && !gs[i].b && !gs[i].c && !gs[i].d
  {
    gs := [];
    if x != [] {
      var more := EscapeIsSpelling(x[1..]);
      UnitIsSpelled(x[0]);
      gs := [Printed(x[0])] + more;
      assert gs[1..] == more;
    }
  }

  lemma QuoteIsSpelling(x: Text) returns (gs: seq<Glyph>)
    ensures Printable(gs) && Units(gs) == x && Quote(x) == SpellString(gs)
    ensures forall i :: 0 <= i < |gs| && gs[i].Hex? ==> !gs[i].a && !gs[i].b && !gs[i].c && !gs[i].d
  {
    gs := EscapeIsSpelling(x);
    QuoteIsEscape(x);
  }

  lemma {:induction false} EscapeIsShortest(gs: seq<Glyph>)
    requires Printable(gs)
    ensures |Escape(Units(gs))| <= |SpellGlyphs(gs)|
  {
    if gs != [] {
      EscapeIsShortest(gs[1..]);
      HexPadForm(gs[0].u);
      assert |if IsEscapable(gs[0].u) then EscapeUnit(gs[0].u) else [gs[0].u]| <= |SpellGlyph(gs[0])|;
    }
  }

  /** No such spelling is shorter than the printed one. */
  lemma QuoteIsShortest(x: Text, gs: seq<Glyph>)
    requires Printable(gs) && Units(gs) == x
    ensures |Quote(x)| <= |SpellString(gs)|
  {
    QuoteIsEscape(x);
    EscapeIsShortest(gs);
  }
}
