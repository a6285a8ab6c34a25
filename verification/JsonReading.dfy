/** JSON.parse gives a value exactly for the texts that spell it. */
module JsonReading {
  import opened Wrappers
  import opened JsonText
  import opened JsonPrinter
  import opened JsonEval
  import opened JsonGuard
  import opened JsonSpelling

  // ------------------------------------------------- what the first pass rewrites

  function CleanGlyph(g: Glyph): Glyph {
    if g.Raw? && IsCx(g.u) then Hex(g.u, false, false, false, false) else g
  }

  function CleanGlyphs(gs: seq<Glyph>): seq<Glyph> {
    if gs == [] then [] else [CleanGlyph(gs[0])] + CleanGlyphs(gs[1..])
  }

  /** The same value, spelled without the units that engines mishandle. */
  function Clean(t: Tree): Tree {
    match t
    case Words(glyphs) => Words(CleanGlyphs(glyphs))
    case List(blank, items) => List(blank, CleanItems(items))
    case Table(blank, entries) => Table(blank, CleanEntries(entries))
    case _ => t
  }

  function CleanItem(i: Item): Item {
    i.(tree := Clean(i.tree))
  }

  function CleanItems(items: seq<Item>): seq<Item> {
    if items == [] then [] else [CleanItem(items[0])] + CleanItems(items[1..])
  }

  function CleanEntries(entries: seq<Entry>): seq<Entry> {
    if entries == [] then []
    else
      var e := entries[0];
      [e.(key := CleanGlyphs(e.key), item := CleanItem(e.item))] + CleanEntries(entries[1..])
  }

  lemma {:induction false} EscapeCxConcat(a: Text, b: Text)
    ensures EscapeCx(a + b) == EscapeCx(a) + EscapeCx(b)
  {
    if a == [] {
      assert a + b == b;
    } else {
      assert (a + b)[1..] == a[1..] + b;
      EscapeCxConcat(a[1..], b);
      Associate(if IsCx(a[0]) then [BACKSLASH, LETTER_U] + HexPad(a[0]) else [a[0]], EscapeCx(a[1..]), EscapeCx(b));
    }
  }

  lemma {:induction false} EscapeCxOfPlain(t: Text)
    requires NoCx(t)
    ensures EscapeCx(t) == t
  {
    if t != [] {
      EscapeCxOfPlain(t[1..]);
    }
  }

  lemma PreparedIsEscaped(t: Text)
    ensures Prepared(t) == EscapeCx(t)
  {
    if NoCx(t) { EscapeCxOfPlain(t); }
  }

  lemma HexHasNoCxUnit(u: Unit, a: bool, b: bool, c: bool, d: bool)
    ensures NoCx([BACKSLASH, LETTER_U] + FourDigits(u, a, b, c, d))
  {
    var h := FourDigits(u, a, b, c, d);
    FourDigitsAreHex(u, a, b, c, d);
    HexIsNoCx(h[0]);
    HexIsNoCx(h[1]);
    HexIsNoCx(h[2]);
    HexIsNoCx(h[3]);
  }

  lemma CleanOneGlyph(g: Glyph)
    requires LegalGlyph(g)
    ensures EscapeCx(SpellGlyph(g)) == SpellGlyph(CleanGlyph(g))
  {
    match g
    case Raw(u) =>
      HexPadForm(u);
    case Short(u) =>
      EscapeCxOfPlain(SpellGlyph(g));
    case Hex(u, a, b, c, d) =>
      HexHasNoCxUnit(u, a, b, c, d);
      EscapeCxOfPlain(SpellGlyph(g));
  }

  lemma {:induction false} CleanAllGlyphs(gs: seq<Glyph>)
    requires LegalGlyphs(gs)
    ensures LegalGlyphs(CleanGlyphs(gs)) && Units(CleanGlyphs(gs)) == Units(gs)
    ensures EscapeCx(SpellGlyphs(gs)) == SpellGlyphs(CleanGlyphs(gs))
  {
    if gs != [] {
      CleanOneGlyph(gs[0]);
      CleanAllGlyphs(gs[1..]);
      EscapeCxConcat(SpellGlyph(gs[0]), SpellGlyphs(gs[1..]));
      assert CleanGlyphs(gs)[1..] == CleanGlyphs(gs[1..]);
    }
  }

  lemma CleanString(gs: seq<Glyph>)
    requires LegalGlyphs(gs)
    ensures LegalGlyphs(CleanGlyphs(gs)) && EscapeCx(SpellString(gs)) == SpellString(CleanGlyphs(gs))
  {
    CleanAllGlyphs(gs);
    EscapeCxConcat([QUOTE] + SpellGlyphs(gs), [QUOTE]);
    EscapeCxConcat([QUOTE], SpellGlyphs(gs));
    EscapeCxOfPlain([QUOTE]);
  }

  lemma EscapeCxOfWs(w: Text)
    requires IsBlank(w)
    ensures EscapeCx(w) == w
  {
    EscapeCxOfPlain(w);
  }

  lemma EscapeCxBetween(u: Unit, body: Text, v: Unit)
    requires !IsCx(u) && !IsCx(v)
    ensures EscapeCx([u] + body + [v]) == [u] + EscapeCx(body) + [v]
  {
    EscapeCxConcat([u] + body, [v]);
    EscapeCxConcat([u], body);
    EscapeCxOfPlain([u]);
    EscapeCxOfPlain([v]);
  }

  /** Rewriting the units of cx gives another spelling of the same value. */
  lemma {:induction false} CleanSpells(t: Tree)
    requires Legal(t)
    ensures Legal(Clean(t)) && Meaning(Clean(t)) == Meaning(t) && EscapeCx(Spell(t)) == Spell(Clean(t))
    decreases t, 1
  {
    match t
    case Figure(numeral) =>
      NumeralIsNumber(numeral);
      NumberHasNoCx(SpellNumeral(numeral));
      EscapeCxOfPlain(Spell(t));
    case Words(glyphs) =>
      CleanString(glyphs);
      CleanAllGlyphs(glyphs);
    case List(blank, items) =>
      EscapeCxOfWs(blank);
      CleanItemsSpell(items);
      EscapeCxBetween(OPEN_BRACKET, if items == [] then blank else SpellItems(items), CLOSE_BRACKET);
    case Table(blank, entries) =>
      EscapeCxOfWs(blank);
      CleanEntriesSpell(entries);
      EscapeCxBetween(OPEN_BRACE, if entries == [] then blank else SpellEntries(entries), CLOSE_BRACE);
    case _ => EscapeCxOfPlain(Spell(t));
  }

  lemma {:induction false} CleanItemSpells(i: Item)
    requires LegalItem(i)
    ensures LegalItem(CleanItem(i)) && Meaning(CleanItem(i).tree) == Meaning(i.tree) && EscapeCx(SpellItem(i)) == SpellItem(CleanItem(i))
    decreases i, 2
  {
    CleanSpells(i.tree);
    EscapeCxOfWs(i.before);
    EscapeCxOfWs(i.after);
    EscapeCxConcat(i.before, Spell(i.tree) + i.after);
    EscapeCxConcat(Spell(i.tree), i.after);
  }

  lemma EscapeCxComma(first: Text, more: Text)
    ensures EscapeCx(first + ([COMMA] + more)) == EscapeCx(first) + ([COMMA] + EscapeCx(more))
  {
    EscapeCxConcat(first, [COMMA] + more);
    EscapeCxConcat([COMMA], more);
    EscapeCxOfPlain([COMMA]);
  }

  lemma {:induction false} CleanItemsSpell(items: seq<Item>)
    requires LegalItems(items)
    ensures var c := CleanItems(items);
            && LegalItems(c) && ItemValues(c) == ItemValues(items) && |c| == |items|
            && (items != [] ==> EscapeCx(SpellItems(items)) == SpellItems(c))
    decreases items, 3
  {
    if items != [] {
      CleanItemSpells(items[0]);
      CleanItemsSpell(items[1..]);
      assert CleanItems(items)[1..] == CleanItems(items[1..]);
      if |items| > 1 {
        EscapeCxComma(SpellItem(items[0]), SpellItems(items[1..]));
      }
    }
  }

  lemma {:induction false} CleanEntrySpells(e: Entry)
    requires IsBlank(e.before) && LegalGlyphs(e.key) && IsBlank(e.behind) && LegalItem(e.item)
    ensures LegalGlyphs(CleanGlyphs(e.key)) && Units(CleanGlyphs(e.key)) == Units(e.key)
    ensures LegalItem(CleanItem(e.item)) && Meaning(CleanItem(e.item).tree) == Meaning(e.item.tree)
    ensures EscapeCx(SpellEntry(e)) == SpellEntry(e.(key := CleanGlyphs(e.key), item := CleanItem(e.item)))
    decreases e, 2
  {
    var colon := [COLON] + SpellItem(e.item);
    CleanString(e.key);
    CleanAllGlyphs(e.key);
    CleanItemSpells(e.item);
    EscapeCxOfWs(e.before);
    EscapeCxOfWs(e.behind);
    EscapeCxOfPlain([COLON]);
    EscapeCxConcat(e.before, SpellString(e.key) + (e.behind + colon));
    EscapeCxConcat(SpellString(e.key), e.behind + colon);
    EscapeCxConcat(e.behind, colon);
    EscapeCxConcat([COLON], SpellItem(e.item));
  }

  lemma {:induction false} CleanEntriesSpell(entries: seq<Entry>)
    requires LegalEntries(entries)
    ensures var c := CleanEntries(entries);
            && LegalEntries(c) && EntryMembers(c) == EntryMembers(entries) && |c| == |entries|
            && (entries != [] ==> EscapeCx(SpellEntries(entries)) == SpellEntries(c))
    decreases entries, 3
  {
    if entries != [] {
      CleanEntrySpells(entries[0]);
      CleanEntriesSpell(entries[1..]);
      assert CleanEntries(entries)[1..] == CleanEntries(entries[1..]);
      if |entries| > 1 {
        EscapeCxComma(SpellEntry(entries[0]), SpellEntries(entries[1..]));
      }
    }
  }

  // -------------------------------------------------------- every spelling is read

  lemma EvalSpelled(before: Text, t: Tree, after: Text)
    requires IsBlank(before) && Legal(t) && IsBlank(after)
    ensures Eval(before + Spell(t) + after) == Some(Meaning(t))
  {
    Associate(before, Spell(t), after);
    SkipWsOver(before, Spell(t) + after);
    ReadSpelled(t, after);
    SkipWsOver(after, []);
    assert after + [] == after;
  }

  lemma GuardSpelled(before: Text, t: Tree, after: Text)
    requires IsBlank(before) && Legal(t) && IsBlank(after)
    ensures Guard(before + Spell(t) + after)
  {
    var text := before + Spell(t) + after;
    Associate(before, Spell(t), after);
    AcceptedWs(after, [], false);
    assert after + [] == after;
    AcceptedSpelled(t, after);
    AcceptedWs(before, Spell(t) + after, true);
    StripLeavesSafe(BlankTokens(BlankEscapes(text)), true);
  }

  /** JSON.parse reads every spelling of every value. */
  lemma ParseSpelled(before: Text, t: Tree, after: Text)
    requires IsBlank(before) && Legal(t) && IsBlank(after)
    ensures Parse(before + Spell(t) + after) == Success(Meaning(t))
  {
    var text := before + Spell(t) + after;
    CleanSpells(t);
    PreparedIsEscaped(text);
    EscapeCxConcat(before + Spell(t), after);
    EscapeCxConcat(before, Spell(t));
    EscapeCxOfWs(before);
    EscapeCxOfWs(after);
    GuardSpelled(before, Clean(t), after);
    EvalSpelled(before, Clean(t), after);
  }

  // ------------------------------------------------- what is read is a spelling

  lemma {:induction false} SkippedWs(s: Text) returns (w: Text)
    ensures IsBlank(w) && s == w + SkipWs(s)
  {
    w := [];
    if s != [] && IsWs(s[0]) {
      var more := SkippedWs(s[1..]);
      w := [s[0]] + more;
    }
  }

  lemma HexDigits(a: nat, b: nat, c: nat, d: nat)
    requires a < 16 && b < 16 && c < 16 && d < 16
    ensures var u := ((a * 16 + b) * 16 + c) * 16 + d;
            u / 4096 == a && u / 256 % 16 == b && u / 16 % 16 == c && u % 16 == d
  {
  }

  predicate IsCapital(u: Unit) {
    0x41 <= u <= 0x46
  }

  lemma HexIsDigit(u: Unit)
    requires IsHex(u)
    ensures HexValue(u) < 16 && Digit(HexValue(u), IsCapital(u)) == u
  {
  }

  lemma SpelledHex(s: Text) returns (g: Glyph)
    requires IsHex4(s)
    ensures g.Hex? && g.u == HexValue4(s[0], s[1], s[2], s[3]) && FourDigits(g.u, g.a, g.b, g.c, g.d) == s[..4]
  {
    HexIsDigit(s[0]);
    HexIsDigit(s[1]);
    HexIsDigit(s[2]);
    HexIsDigit(s[3]);
    HexDigits(HexValue(s[0]), HexValue(s[1]), HexValue(s[2]), HexValue(s[3]));
    g := Hex(HexValue4(s[0], s[1], s[2], s[3]), IsCapital(s[0]), IsCapital(s[1]), IsCapital(s[2]), IsCapital(s[3]));
    assert s[..4] == [s[0], s[1], s[2], s[3]];
  }

  lemma SpelledUnit(s: Text) returns (g: Glyph)
    requires ReadUnit(s).Some?
    ensures var r := ReadUnit(s).value;
            LegalGlyph(g) && g.u == r.value && s == SpellGlyph(g) + r.rest
  {
    if s[0] != BACKSLASH {
      g := Raw(s[0]);
    } else if s[1] == LETTER_U {
      g := SpelledHex(s[2..]);
      assert s == s[..2] + s[2..][..4] + s[6..];
    } else {
      g := Short(SimpleEscape(s[1]).value);
      assert s == s[..2] + s[2..];
    }
  }

  lemma {:induction false} SpelledBody(s: Text) returns (gs: seq<Glyph>)
    requires ReadBody(s).Some?
    ensures var r := ReadBody(s).value;
            LegalGlyphs(gs) && Units(gs) == r.value && s == SpellGlyphs(gs) + ([QUOTE] + r.rest)
    decreases |s|
  {
    if s[0] == QUOTE {
      gs := [];
    } else {
      var first := ReadUnit(s).value;
      var g := SpelledUnit(s);
      var more := SpelledBody(first.rest);
      gs := [g] + more;
      Associate(SpellGlyph(g), SpellGlyphs(more), [QUOTE] + ReadBody(s).value.rest);
    }
  }

  lemma SpelledString(s: Text) returns (gs: seq<Glyph>)
    requires s != [] && s[0] == QUOTE && ReadBody(s[1..]).Some?
    ensures var r := ReadBody(s[1..]).value;
            LegalGlyphs(gs) && Units(gs) == r.value && s == SpellString(gs) + r.rest
  {
    gs := SpelledBody(s[1..]);
    var r := ReadBody(s[1..]).value;
    assert s == [QUOTE] + s[1..];
    Bracketed(QUOTE, SpellGlyphs(gs), QUOTE, r.rest);
  }

  lemma RunDigits(s: Text)
    ensures AllDigits(s[..DigitRun(s)])
  {
    DigitRunIsDigits(s);
  }

  lemma SpelledExponent(s: Text) returns (e: Option<Exponent>)
    ensures (e.Some? ==> LegalExponent(e.value)) && SpellExponent(e) == s[..ExpLen(s)]
  {
    var n := ExpLen(s);
    if n == 0 {
      e := None;
    } else {
      var k := if 1 < |s| && (s[1] == PLUS || s[1] == MINUS) then 2 else 1;
      RunDigits(s[k..]);
      e := Some(Exponent(s[0], s[1..k], s[k..n]));
      assert s[k..n] == s[k..][..n - k];
      assert s[..n] == [s[0]] + s[1..k] + s[k..n];
    }
  }

  lemma SpelledFraction(s: Text) returns (fraction: Text)
    ensures AllDigits(fraction) && SpellFraction(fraction) == s[..FracLen(s)]
  {
    var n := FracLen(s);
    fraction := [];
    if n != 0 {
      RunDigits(s[1..]);
      fraction := s[1..n];
      assert s[1..n] == s[1..][..n - 1];
      assert s[..n] == [DOT] + s[1..n];
    }
  }

  lemma SpelledWhole(s: Text)
    requires IntLen(s) != 0
    ensures var whole := s[..IntLen(s)];
            whole != [] && AllDigits(whole) && (whole[0] == ZERO ==> |whole| == 1)
  {
    RunDigits(s);
  }

  lemma SpelledTail(s: Text) returns (fraction: Text, e: Option<Exponent>)
    ensures AllDigits(fraction) && (e.Some? ==> LegalExponent(e.value))
    ensures SpellFraction(fraction) + SpellExponent(e) == s[..TailLen(s)]
  {
    var c := FracLen(s);
    fraction := SpelledFraction(s);
    e := SpelledExponent(s[c..]);
    Cut(s, c, ExpLen(s[c..]));
  }

  lemma SpelledUnsigned(s: Text, sign: Text) returns (n: Numeral)
    requires UnsignedLen(s) != 0 && (sign == [] || sign == [MINUS])
    ensures LegalNumeral(n) && SpellNumeral(n) == sign + s[..UnsignedLen(s)]
  {
    var b := IntLen(s);
    var fraction, e := SpelledTail(s[b..]);
    SpelledWhole(s);
    n := Numeral(sign, s[..b], fraction, e);
    Cut(s, b, TailLen(s[b..]));
  }

  lemma Cut(s: Text, a: nat, b: nat)
    requires a <= a + b <= |s|
    ensures s[..a + b] == s[..a] + s[a..][..b]
  {
  }

  lemma SpelledNumeral(s: Text) returns (n: Numeral)
    requires NumberLen(s) != 0
    ensures LegalNumeral(n) && SpellNumeral(n) == s[..NumberLen(s)]
  {
    var a := SignLen(s);
    n := SpelledUnsigned(s[a..], s[..a]);
    Cut(s, a, UnsignedLen(s[a..]));
  }

  lemma SpelledFigure(s: Text) returns (t: Tree)
    requires ReadNumber(s).Some?
    ensures var r := ReadNumber(s).value;
            Legal(t) && Meaning(t) == r.value && s == Spell(t) + r.rest
  {
    var n := SpelledNumeral(s);
    t := Figure(n);
  }

  lemma SpelledWord(s: Text) returns (t: Tree)
    requires StartsWith(s, TRUE) || StartsWith(s, FALSE) || StartsWith(s, NULL)
    ensures Legal(t) && |Spell(t)| <= |s| && s == Spell(t) + s[|Spell(t)|..]
    ensures t == if StartsWith(s, TRUE) then Truth(true) else if StartsWith(s, FALSE) then Truth(false) else Nothing
  {
    t := if StartsWith(s, TRUE) then Truth(true) else if StartsWith(s, FALSE) then Truth(false) else Nothing;
  }

  /** The induction: what a value was read from spells it. */
  lemma {:induction false} SpelledValue(s: Text) returns (t: Tree)
    requires ReadValue(s).Some?
    ensures var r := ReadValue(s).value;
            Legal(t) && Meaning(t) == r.value && s == Spell(t) + r.rest
    decreases |s|, 1
  {
    var r := ReadValue(s).value;
    if s[0] == QUOTE {
      var gs := SpelledString(s);
      t := Words(gs);
    } else if s[0] == OPEN_BRACKET {
      t := SpelledArray(s);
    } else if s[0] == OPEN_BRACE {
      t := SpelledObject(s);
    } else if s[0] == MINUS || IsDigit(s[0]) {
      t := SpelledFigure(s);
    } else {
      t := SpelledWord(s);
    }
  }

  lemma {:induction false} SpelledArray(s: Text) returns (t: Tree)
    requires ReadValue(s).Some? && s[0] == OPEN_BRACKET
    ensures var r := ReadValue(s).value;
            Legal(t) && Meaning(t) == r.value && s == Spell(t) + r.rest
    decreases |s|, 0
  {
    var r := ReadValue(s).value;
    var w := SkippedWs(s[1..]);
    var body := SkipWs(s[1..]);
    assert s == [OPEN_BRACKET] + (w + body);
    if body[0] == CLOSE_BRACKET {
      t := List(w, []);
      assert body == [CLOSE_BRACKET] + r.rest;
      Bracketed(OPEN_BRACKET, w, CLOSE_BRACKET, r.rest);
    } else {
      var items := SpelledItems(body);
      var widened := WidenItems(items, w);
      t := List([], widened);
      Associate(w, SpellItems(items), [CLOSE_BRACKET] + r.rest);
      Bracketed(OPEN_BRACKET, SpellItems(widened), CLOSE_BRACKET, r.rest);
    }
  }

  lemma {:induction false} SpelledObject(s: Text) returns (t: Tree)
    requires ReadValue(s).Some? && s[0] == OPEN_BRACE
    ensures var r := ReadValue(s).value;
            Legal(t) && Meaning(t) == r.value && s == Spell(t) + r.rest
    decreases |s|, 0
  {
    var r := ReadValue(s).value;
    var w := SkippedWs(s[1..]);
    var body := SkipWs(s[1..]);
    assert s == [OPEN_BRACE] + (w + body);
    if body[0] == CLOSE_BRACE {
      t := Table(w, []);
      assert body == [CLOSE_BRACE] + r.rest;
      Bracketed(OPEN_BRACE, w, CLOSE_BRACE, r.rest);
    } else {
      var entries := SpelledEntries(body);
      var widened := WidenEntries(entries, w);
      t := Table([], widened);
      LastWinsIsKept(EntryMembers(entries));
      Associate(w, SpellEntries(entries), [CLOSE_BRACE] + r.rest);
      Bracketed(OPEN_BRACE, SpellEntries(widened), CLOSE_BRACE, r.rest);
    }
  }

  /** Whitespace before the first item belongs to it. */
  lemma WidenItems(items: seq<Item>, w: Text) returns (r: seq<Item>)
    requires items != [] && LegalItems(items) && IsBlank(w)
    ensures r != [] && LegalItems(r) && ItemValues(r) == ItemValues(items) && SpellItems(r) == w + SpellItems(items)
  {
    var i := items[0];
    var first := i.(before := w + i.before);
    r := [first] + items[1..];
    assert r[1..] == items[1..];
    assert SpellItem(first) == w + SpellItem(i);
    if |items| > 1 { Associate(w, SpellItem(i), [COMMA] + SpellItems(items[1..])); }
  }

  lemma WidenEntries(entries: seq<Entry>, w: Text) returns (r: seq<Entry>)
    requires entries != [] && LegalEntries(entries) && IsBlank(w)
    ensures r != [] && LegalEntries(r) && EntryMembers(r) == EntryMembers(entries) && SpellEntries(r) == w + SpellEntries(entries)
  {
    var e := entries[0];
    var first := e.(before := w + e.before);
    r := [first] + entries[1..];
    assert r[1..] == entries[1..];
    assert SpellEntry(first) == w + SpellEntry(e);
    if |entries| > 1 { Associate(w, SpellEntry(e), [COMMA] + SpellEntries(entries[1..])); }
  }

  lemma {:induction false} SpelledItems(s: Text) returns (items: seq<Item>)
    requires ReadElems(s).Some?
    ensures var r := ReadElems(s).value;
            && items != [] && LegalItems(items) && ItemValues(items) == r.value
            && s == SpellItems(items) + ([CLOSE_BRACKET] + r.rest)
    decreases |s|, 2
  {
    var r, first := ReadElems(s).value, ReadValue(s).value;
    var tree := SpelledValue(s);
    var after := SkippedWs(first.rest);
    var tail := SkipWs(first.rest);
    var item := Item([], tree, after);
    assert SpellItem(item) == Spell(tree) + after;
    Associate(Spell(tree), after, tail);
    assert ItemValues([item]) == [Meaning(tree)] + ItemValues([item][1..]);
    if tail[0] == CLOSE_BRACKET {
      items := [item];
      assert tail == [CLOSE_BRACKET] + r.rest;
    } else {
      var w := SkippedWs(tail[1..]);
      var more := SpelledItems(SkipWs(tail[1..]));
      var widened := WidenItems(more, w);
      items := [item] + widened;
      assert items[1..] == widened;
      MoreParts(SpellItem(item), tail, w, SpellItems(more), [CLOSE_BRACKET] + r.rest);
    }
  }

  lemma MoreParts(first: Text, tail: Text, w: Text, more: Text, end: Text)
    requires tail != [] && tail[0] == COMMA && tail[1..] == w + (more + end)
    ensures first + tail == first + ([COMMA] + (w + more)) + end
  {
    assert tail == [COMMA] + tail[1..];
  }

  lemma {:induction false} SpelledEntries(s: Text) returns (entries: seq<Entry>)
    requires ReadMembers(s).Some?
    ensures var r := ReadMembers(s).value;
            && entries != [] && LegalEntries(entries) && EntryMembers(entries) == r.value
            && s == SpellEntries(entries) + ([CLOSE_BRACE] + r.rest)
    decreases |s|, 3
  {
    var r, first := ReadMembers(s).value, ReadMember(s).value;
    var e := SpelledEntry(s);
    var tail := SkipWs(first.rest);
    assert EntryMembers([e]) == [first.value] + EntryMembers([e][1..]);
    if tail[0] == CLOSE_BRACE {
      entries := [e];
      assert tail == [CLOSE_BRACE] + r.rest;
    } else {
      var w := SkippedWs(tail[1..]);
      var more := SpelledEntries(SkipWs(tail[1..]));
      var widened := WidenEntries(more, w);
      entries := [e] + widened;
      assert entries[1..] == widened;
      MoreParts(SpellEntry(e), tail, w, SpellEntries(more), [CLOSE_BRACE] + r.rest);
    }
  }

  lemma {:induction false} SpelledEntry(s: Text) returns (e: Entry)
    requires ReadMember(s).Some?
    ensures var r := ReadMember(s).value;
            && IsBlank(e.before) && LegalGlyphs(e.key) && IsBlank(e.behind) && LegalItem(e.item)
            && Member(Units(e.key), Meaning(e.item.tree)) == r.value
            && s == SpellEntry(e) + SkipWs(r.rest)
    decreases |s|, 2
  {
    var r := ReadMember(s).value;
    var key := SpelledString(s);
    var rest := ReadBody(s[1..]).value.rest;
    var behind := SkippedWs(rest);
    var t := SkipWs(rest);
    var before := SkippedWs(t[1..]);
    var tree := SpelledValue(SkipWs(t[1..]));
    var after := SkippedWs(r.rest);
    e := Entry([], key, behind, Item(before, tree, after));
    EntryParts(SpellString(key), behind, t, before, Spell(tree), after, SkipWs(r.rest));
  }

  lemma EntryParts(key: Text, behind: Text, t: Text, before: Text, value: Text, after: Text, tail: Text)
    requires t != [] && t[0] == COLON && t[1..] == before + (value + (after + tail))
    ensures key + (behind + t) == [] + (key + (behind + ([COLON] + (before + (value + after))))) + tail
  {
    assert t == [COLON] + t[1..];
  }

  // ------------------------------------------------------------------ both ways

  /** The text spells the value, with whitespace around it. */
  predicate Spells(text: Text, before: Text, t: Tree, after: Text, v: Value) {
    IsBlank(before) && Legal(t) && IsBlank(after) && text == before + Spell(t) + after && Meaning(t) == v
  }

  /** A text is parsed to a value exactly when it spells it once the units of cx are escaped. */
  lemma ParsesExactly(text: Text, v: Value)
    ensures Parse(text) == Success(v)
       <==> exists before, t, after :: Spells(Prepared(text), before, t, after, v)
  {
    var s := Prepared(text);
    if Parse(text) == Success(v) {
      var r := ReadValue(SkipWs(s)).value;
      var before := SkippedWs(s);
      var t := SpelledValue(SkipWs(s));
      var after := SkippedWs(r.rest);
      assert after + [] == after;
      Associate(before, Spell(t), after);
      assert Spells(s, before, t, after, v);
    }
    if exists before, t, after :: Spells(s, before, t, after, v) {
      var before, t, after :| Spells(s, before, t, after, v);
      GuardSpelled(before, t, after);
      EvalSpelled(before, t, after);
    }
  }
}
