/** JSON texts by how they are spelled (RFC 4627 section 2), and that JSON.parse reads every one.

    A tree carries the spelling of each unit of its strings and keys, the parts of its numbers and all
    whitespace. Its text is put together without regard to any reader, from the codes of the units. */
module JsonSpelling {
  import opened Wrappers
  import opened JsonText
  import opened JsonPrinter
  import opened JsonEval
  import opened JsonRoundTrip
  import opened JsonGuard

  // ------------------------------------------------------------------ the trees

  /** How one unit of a string is spelled: as itself, by a short escape, or by four hexadecimal digits,
      each a capital or not. */
  datatype Glyph = Raw(u: Unit) | Short(u: Unit) | Hex(u: Unit, a: bool, b: bool, c: bool, d: bool)

  datatype Exponent = Exponent(mark: Unit, sign: Text, digits: Text)

  datatype Numeral = Numeral(sign: Text, whole: Text, fraction: Text, exponent: Option<Exponent>)

  /** A value with its spelling; `blank` stands in an empty list or table. */
  datatype Tree =
    | Nothing
    | Truth(b: bool)
    | Figure(numeral: Numeral)
    | Words(glyphs: seq<Glyph>)
    | List(blank: Text, items: seq<Item>)
    | Table(blank: Text, entries: seq<Entry>)

  /** A value with the whitespace around it. */
  datatype Item = Item(before: Text, tree: Tree, after: Text)

  datatype Entry = Entry(before: Text, key: seq<Glyph>, behind: Text, item: Item)

  // --------------------------------------------------------------- what is legal

  predicate AllDigits(t: Text) {
    forall i :: 0 <= i < |t| ==> 0x30 <= t[i] <= 0x39
  }

  predicate IsBlank(t: Text) {
    forall i :: 0 <= i < |t| ==> t[i] == 0x20 || t[i] == 0x09 || t[i] == 0x0A || t[i] == 0x0D
  }

  predicate LegalGlyph(g: Glyph) {
    match g
    case Raw(u) => 0x20 <= u && u != 0x22 && u != 0x5C
    case Short(u) => Letter(u).Some?
    case Hex(_, _, _, _, _) => true
  }

  predicate LegalGlyphs(gs: seq<Glyph>) {
    forall i :: 0 <= i < |gs| ==> LegalGlyph(gs[i])
  }

  predicate LegalExponent(e: Exponent) {
    (e.mark == 0x65 || e.mark == 0x45) && (e.sign == [] || e.sign == [0x2B] || e.sign == [0x2D]) && e.digits != [] && AllDigits(e.digits)
  }

  predicate LegalNumeral(n: Numeral) {
    && (n.sign == [] || n.sign == [0x2D])
    && n.whole != [] && AllDigits(n.whole) && (n.whole[0] == 0x30 ==> |n.whole| == 1)
    && AllDigits(n.fraction) && (n.exponent.Some? ==> LegalExponent(n.exponent.value))
  }

  predicate Legal(t: Tree) {
    match t
    case Nothing => true
    case Truth(_) => true
    case Figure(numeral) => LegalNumeral(numeral)
    case Words(glyphs) => LegalGlyphs(glyphs)
    case List(blank, items) => IsBlank(blank) && LegalItems(items)
    case Table(blank, entries) => IsBlank(blank) && LegalEntries(entries)
  }

  predicate LegalItem(i: Item) {
    IsBlank(i.before) && Legal(i.tree) && IsBlank(i.after)
  }

  predicate LegalItems(items: seq<Item>) {
    items != [] ==> LegalItem(items[0]) && LegalItems(items[1..])
  }

  predicate LegalEntries(entries: seq<Entry>) {
    entries != [] ==>
      && IsBlank(entries[0].before) && LegalGlyphs(entries[0].key) && IsBlank(entries[0].behind)
      && LegalItem(entries[0].item) && LegalEntries(entries[1..])
  }

  // ------------------------------------------------------------------- the texts

  /** The letter of the short escape of a unit. */
  function Letter(u: Unit): Option<Unit> {
    if u == 0x22 || u == 0x5C || u == 0x2F then Some(u)
    else if u == 0x08 then Some(0x62)
    else if u == 0x0C then Some(0x66)
    else if u == 0x0A then Some(0x6E)
    else if u == 0x0D then Some(0x72)
    else if u == 0x09 then Some(0x74)
    else None
  }

  function Digit(d: nat, capital: bool): Unit
    requires d < 16
  {
    if d < 10 then 0x30 + d else if capital then 0x41 + (d - 10) else 0x61 + (d - 10)
  }

  function FourDigits(u: Unit, a: bool, b: bool, c: bool, d: bool): Text {
    [Digit(u / 4096, a), Digit(u / 256 % 16, b), Digit(u / 16 % 16, c), Digit(u % 16, d)]
  }

  function SpellGlyph(g: Glyph): Text
    requires LegalGlyph(g)
  {
    match g
    case Raw(u) => [u]
    case Short(u) => [0x5C, Letter(u).value]
    case Hex(u, a, b, c, d) => [0x5C, 0x75] + FourDigits(u, a, b, c, d)
  }

  function SpellGlyphs(gs: seq<Glyph>): Text
    requires LegalGlyphs(gs)
  {
    if gs == [] then [] else SpellGlyph(gs[0]) + SpellGlyphs(gs[1..])
  }

  function SpellString(gs: seq<Glyph>): Text
    requires LegalGlyphs(gs)
  {
    [0x22] + SpellGlyphs(gs) + [0x22]
  }

  function SpellExponent(e: Option<Exponent>): Text {
    if e.None? then [] else [e.value.mark] + e.value.sign + e.value.digits
  }

  function SpellFraction(fraction: Text): Text {
    if fraction == [] then [] else [0x2E] + fraction
  }

  function SpellNumeral(n: Numeral): Text {
    n.sign + (n.whole + (SpellFraction(n.fraction) + SpellExponent(n.exponent)))
  }

  function Spell(t: Tree): Text
    requires Legal(t)
    decreases t
  {
    match t
    case Nothing => [0x6E, 0x75, 0x6C, 0x6C]
    case Truth(b) => if b then [0x74, 0x72, 0x75, 0x65] else [0x66, 0x61, 0x6C, 0x73, 0x65]
    case Figure(numeral) => SpellNumeral(numeral)
    case Words(glyphs) => SpellString(glyphs)
    case List(blank, items) => [0x5B] + (if items == [] then blank else SpellItems(items)) + [0x5D]
    case Table(blank, entries) => [0x7B] + (if entries == [] then blank else SpellEntries(entries)) + [0x7D]
  }

  function SpellItem(i: Item): Text
    requires LegalItem(i)
    decreases i
  {
    i.before + (Spell(i.tree) + i.after)
  }

  function SpellItems(items: seq<Item>): Text
    requires items != [] && LegalItems(items)
    decreases items
  {
    if |items| == 1 then SpellItem(items[0]) else SpellItem(items[0]) + ([0x2C] + SpellItems(items[1..]))
  }

  function SpellEntry(e: Entry): Text
    requires IsBlank(e.before) && LegalGlyphs(e.key) && IsBlank(e.behind) && LegalItem(e.item)
    decreases e
  {
    e.before + (SpellString(e.key) + (e.behind + ([0x3A] + SpellItem(e.item))))
  }

  function SpellEntries(entries: seq<Entry>): Text
    requires entries != [] && LegalEntries(entries)
    decreases entries
  {
    if |entries| == 1 then SpellEntry(entries[0]) else SpellEntry(entries[0]) + ([0x2C] + SpellEntries(entries[1..]))
  }

  // ------------------------------------------------------------------ the values

  function Units(gs: seq<Glyph>): (r: Text)
    ensures |r| == |gs|
  {
    if gs == [] then [] else [gs[0].u] + Units(gs[1..])
  }

  function LastOf(ms: seq<Member>, key: Text): Option<Value> {
    if ms == [] then None
    else
      var later := LastOf(ms[1..], key);
      if later.Some? then later else if ms[0].key == key then Some(ms[0].value) else None
  }

  function Without(ms: seq<Member>, key: Text): (r: seq<Member>)
    ensures |r| <= |ms|
  {
    if ms == [] then []
    else if ms[0].key == key then Without(ms[1..], key)
    else [ms[0]] + Without(ms[1..], key)
  }

  /** Each key once, in the order of first appearance, with its last value. */
  function Kept(ms: seq<Member>): seq<Member>
    decreases |ms|
  {
    if ms == [] then []
    else
      var key := ms[0].key;
      var last := LastOf(ms, key);
      [Member(key, if last.Some? then last.value else Undefined)] + Kept(Without(ms[1..], key))
  }

  function Meaning(t: Tree): Value {
    match t
    case Nothing => Null
    case Truth(b) => Bool(b)
    case Figure(numeral) => Number(SpellNumeral(numeral))
    case Words(glyphs) => Str(Units(glyphs))
    case List(_, items) => Arr(ItemValues(items))
    case Table(_, entries) => Obj(Kept(EntryMembers(entries)))
  }

  function ItemValues(items: seq<Item>): seq<Value> {
    if items == [] then [] else [Meaning(items[0].tree)] + ItemValues(items[1..])
  }

  function EntryMembers(entries: seq<Entry>): seq<Member> {
    if entries == [] then []
    else [Member(Units(entries[0].key), Meaning(entries[0].item.tree))] + EntryMembers(entries[1..])
  }

  // --------------------------------------------------------------- repeated keys

  lemma {:induction false} WithoutSnoc(ms: seq<Member>, m: Member, key: Text)
    ensures Without(ms + [m], key) == if m.key == key then Without(ms, key) else Without(ms, key) + [m]
  {
    if ms == [] {
      assert ms + [m] == [m];
    } else {
      assert (ms + [m])[1..] == ms[1..] + [m];
      WithoutSnoc(ms[1..], m, key);
    }
  }

  lemma {:induction false} LastOfSnoc(ms: seq<Member>, m: Member, key: Text)
    ensures LastOf(ms + [m], key) == if m.key == key then Some(m.value) else LastOf(ms, key)
  {
    if ms == [] {
      assert (ms + [m])[1..] == [];
    } else {
      assert (ms + [m])[1..] == ms[1..] + [m];
      LastOfSnoc(ms[1..], m, key);
    }
  }

  lemma {:induction false} KeptSnoc(ms: seq<Member>, m: Member)
    ensures Kept(ms + [m]) == Put(Kept(ms), m)
    decreases |ms|
  {
    if ms == [] {
      assert ms + [m] == [m] && [m][1..] == [];
      assert LastOf([m], m.key) == Some(m.value);
    } else {
      var key := ms[0].key;
      assert (ms + [m])[1..] == ms[1..] + [m];
      LastOfSnoc(ms, m, key);
      WithoutSnoc(ms[1..], m, key);
      if m.key != key {
        KeptSnoc(Without(ms[1..], key), m);
      }
    }
  }

  /** An object literal that repeats a key keeps its first place and its last value. */
  lemma {:induction false} LastWinsIsKept(ms: seq<Member>)
    ensures LastWins(ms) == Kept(ms)
  {
    if ms != [] {
      var front := ms[..|ms| - 1];
      LastWinsIsKept(front);
      KeptSnoc(front, ms[|ms| - 1]);
      assert ms == front + [ms[|ms| - 1]];
    }
  }

  // --------------------------------------------------------------------- numbers

  lemma {:induction false} DigitsRun(d: Text, rest: Text)
    requires AllDigits(d) && (rest == [] || !IsDigit(rest[0]))
    ensures DigitRun(d + rest) == |d|
  {
    if d == [] {
      assert d + rest == rest;
    } else {
      assert (d + rest)[1..] == d[1..] + rest;
      DigitsRun(d[1..], rest);
    }
  }

  lemma ExponentLen(e: Option<Exponent>)
    requires e.Some? ==> LegalExponent(e.value)
    ensures ExpLen(SpellExponent(e)) == |SpellExponent(e)|
  {
    if e.Some? {
      var s, k := SpellExponent(e), 1 + |e.value.sign|;
      DigitsRun(e.value.digits, []);
      assert e.value.digits + [] == e.value.digits;
      assert s[k..] == e.value.digits;
      if e.value.sign == [] { assert s[1] == e.value.digits[0]; }
    }
  }

  lemma FracOver(fraction: Text, rest: Text)
    requires fraction != [] && AllDigits(fraction) && (rest == [] || !IsDigit(rest[0]))
    ensures FracLen([DOT] + (fraction + rest)) == 1 + |fraction|
  {
    var s := [DOT] + (fraction + rest);
    DigitsRun(fraction, rest);
    assert s[1..] == fraction + rest && s[1] == fraction[0];
  }

  lemma FractionLen(fraction: Text, e: Option<Exponent>)
    requires AllDigits(fraction) && (e.Some? ==> LegalExponent(e.value))
    ensures var s := SpellFraction(fraction) + SpellExponent(e);
            TailLen(s) == |s| && (s == [] || !IsDigit(s[0]))
  {
    var end := SpellExponent(e);
    var s := SpellFraction(fraction) + end;
    ExponentLen(e);
    if fraction == [] {
      assert s == end && s[0..] == end;
    } else {
      FracOver(fraction, end);
      Associate([DOT], fraction, end);
    }
  }

  lemma IntOver(whole: Text, tail: Text)
    requires whole != [] && AllDigits(whole) && (whole[0] == ZERO ==> |whole| == 1) && (tail == [] || !IsDigit(tail[0]))
    ensures IntLen(whole + tail) == |whole|
  {
    assert (whole + tail)[0] == whole[0];
    if whole[0] != ZERO { DigitsRun(whole, tail); }
  }

  lemma UnsignedOver(whole: Text, tail: Text)
    requires whole != [] && AllDigits(whole) && (whole[0] == ZERO ==> |whole| == 1) && (tail == [] || !IsDigit(tail[0]))
    requires TailLen(tail) == |tail|
    ensures UnsignedLen(whole + tail) == |whole + tail| && (whole + tail)[0] != MINUS
  {
    IntOver(whole, tail);
    assert (whole + tail)[0] == whole[0];
  }

  lemma NumeralIsNumber(n: Numeral)
    requires LegalNumeral(n)
    ensures IsNumber(SpellNumeral(n))
  {
    var tail := SpellFraction(n.fraction) + SpellExponent(n.exponent);
    FractionLen(n.fraction, n.exponent);
    UnsignedOver(n.whole, tail);
  }

  // --------------------------------------------------------------------- strings

  lemma DigitIsHex(d: nat, capital: bool)
    requires d < 16
    ensures IsHex(Digit(d, capital)) && HexValue(Digit(d, capital)) == d
  {
  }

  lemma FourDigitsAreHex(u: Unit, a: bool, b: bool, c: bool, d: bool)
    ensures var h := FourDigits(u, a, b, c, d); IsHex4(h) && HexValue4(h[0], h[1], h[2], h[3]) == u
  {
    HexPlaces(u);
    DigitIsHex(u / 4096, a);
    DigitIsHex(u / 256 % 16, b);
    DigitIsHex(u / 16 % 16, c);
    DigitIsHex(u % 16, d);
  }

  lemma ReadGlyph(g: Glyph, rest: Text)
    requires LegalGlyph(g)
    ensures var s := SpellGlyph(g) + rest;
            s[0] != QUOTE && ReadUnit(s) == Some(Read(g.u, rest))
  {
    var s := SpellGlyph(g) + rest;
    match g
    case Raw(u) => assert s[1..] == rest;
    case Short(u) => assert s[2..] == rest;
    case Hex(u, a, b, c, d) =>
      var h := FourDigits(u, a, b, c, d);
      FourDigitsAreHex(u, a, b, c, d);
      assert s[2..] == h + rest && s[6..] == rest;
      assert s[2] == h[0] && s[3] == h[1] && s[4] == h[2] && s[5] == h[3];
  }

  lemma {:induction false} ReadGlyphs(gs: seq<Glyph>, rest: Text)
    requires LegalGlyphs(gs)
    ensures ReadBody(SpellGlyphs(gs) + [QUOTE] + rest) == Some(Read(Units(gs), rest))
  {
    var s := SpellGlyphs(gs) + [QUOTE] + rest;
    if gs == [] {
      assert s[1..] == rest;
    } else {
      var tail := SpellGlyphs(gs[1..]) + [QUOTE] + rest;
      assert s == SpellGlyph(gs[0]) + tail;
      ReadGlyph(gs[0], tail);
      ReadGlyphs(gs[1..], rest);
    }
  }

  lemma Bracketed(open: Unit, body: Text, close: Unit, rest: Text)
    ensures [open] + body + [close] + rest == [open] + (body + ([close] + rest))
    ensures ([open] + body + [close] + rest)[1..] == body + ([close] + rest)
  {
  }

  lemma ReadSpelledString(gs: seq<Glyph>, rest: Text)
    requires LegalGlyphs(gs)
    ensures var s := SpellString(gs) + rest;
            s[0] == QUOTE && ReadBody(s[1..]) == Some(Read(Units(gs), rest))
  {
    ReadGlyphs(gs, rest);
    Bracketed(QUOTE, SpellGlyphs(gs), QUOTE, rest);
    Associate(SpellGlyphs(gs), [QUOTE], rest);
  }

  // --------------------------------------------------------------------- reading

  /** What follows a value in a text. */
  predicate Follows(s: Text) {
    s != [] && (s[0] == COMMA || s[0] == CLOSE_BRACKET || s[0] == CLOSE_BRACE)
  }

  lemma ItemShape(i: Item, tail: Text)
    requires LegalItem(i)
    ensures SpellItem(i) + tail == i.before + (Spell(i.tree) + (i.after + tail))
    ensures var s := SpellItem(i) + tail;
            SkipWs(s) == Spell(i.tree) + (i.after + tail) && StartsValue(SkipWs(s)[0])
  {
    var s := Spell(i.tree) + (i.after + tail);
    assert SpellItem(i) + tail == i.before + s;
    SkipWsOver(i.before, s);
  }

  /** The main induction: whatever follows, reading takes exactly the spelled text. */
  lemma {:induction false} ReadSpelled(t: Tree, rest: Text)
    requires Legal(t) && StopsNumber(rest)
    ensures ReadValue(Spell(t) + rest) == Some(Read(Meaning(t), rest))
    decreases t, 1
  {
    match t
    case Nothing =>
    case Truth(b) =>
    case Figure(numeral) =>
      NumeralIsNumber(numeral);
      ReadPrintedNumber(SpellNumeral(numeral), rest);
    case Words(glyphs) => ReadSpelledString(glyphs, rest);
    case List(blank, items) => ReadList(blank, items, rest);
    case Table(blank, entries) => ReadTable(blank, entries, rest);
  }

  lemma {:induction false} ReadList(blank: Text, items: seq<Item>, rest: Text)
    requires IsBlank(blank) && LegalItems(items)
    ensures ReadValue(Spell(List(blank, items)) + rest) == Some(Read(Arr(ItemValues(items)), rest))
    decreases items, 4
  {
    var end := [CLOSE_BRACKET] + rest;
    var body := (if items == [] then blank else SpellItems(items)) + end;
    Bracketed(OPEN_BRACKET, if items == [] then blank else SpellItems(items), CLOSE_BRACKET, rest);
    if items == [] {
      SkipWsOver(blank, end);
    } else {
      ReadItems(items, rest);
    }
  }

  lemma {:induction false} ReadTable(blank: Text, entries: seq<Entry>, rest: Text)
    requires IsBlank(blank) && LegalEntries(entries)
    ensures ReadValue(Spell(Table(blank, entries)) + rest) == Some(Read(Obj(Kept(EntryMembers(entries))), rest))
    decreases entries, 4
  {
    var end := [CLOSE_BRACE] + rest;
    var body := (if entries == [] then blank else SpellEntries(entries)) + end;
    Bracketed(OPEN_BRACE, if entries == [] then blank else SpellEntries(entries), CLOSE_BRACE, rest);
    if entries == [] {
      SkipWsOver(blank, end);
    } else {
      ReadEntries(entries, rest);
      LastWinsIsKept(EntryMembers(entries));
    }
  }

  lemma {:induction false} ReadItem(i: Item, tail: Text)
    requires LegalItem(i) && Follows(tail)
    ensures var s := SpellItem(i) + tail;
            ReadValue(SkipWs(s)) == Some(Read(Meaning(i.tree), i.after + tail)) && SkipWs(i.after + tail) == tail
    decreases i, 2
  {
    ItemShape(i, tail);
    SkipWsOver(i.after, tail);
    ReadSpelled(i.tree, i.after + tail);
  }

  lemma {:induction false} ReadItems(items: seq<Item>, rest: Text)
    requires items != [] && LegalItems(items)
    ensures var s := SkipWs(SpellItems(items) + ([CLOSE_BRACKET] + rest));
            && s != [] && s[0] != CLOSE_BRACKET
            && ReadElems(s) == Some(Read(ItemValues(items), rest))
    decreases items, 3
  {
    var end := [CLOSE_BRACKET] + rest;
    if |items| == 1 {
      ReadItem(items[0], end);
      ItemShape(items[0], end);
      assert SpellItems(items) == SpellItem(items[0]) && end[1..] == rest;
      assert ItemValues(items) == [Meaning(items[0].tree)] + ItemValues(items[1..]) == [Meaning(items[0].tree)];
    } else {
      var more := SpellItems(items[1..]) + end;
      assert SpellItems(items) + end == SpellItem(items[0]) + ([COMMA] + more);
      ReadItem(items[0], [COMMA] + more);
      ItemShape(items[0], [COMMA] + more);
      ReadItems(items[1..], rest);
      assert ([COMMA] + more)[1..] == more;
    }
  }

  lemma {:induction false} ReadEntry(e: Entry, tail: Text)
    requires IsBlank(e.before) && LegalGlyphs(e.key) && IsBlank(e.behind) && LegalItem(e.item) && Follows(tail)
    ensures var s := SkipWs(SpellEntry(e) + tail);
            && s != [] && s[0] == QUOTE && SkipWs(e.item.after + tail) == tail
            && ReadMember(s) == Some(Read(Member(Units(e.key), Meaning(e.item.tree)), e.item.after + tail))
    decreases e, 2
  {
    var colon := [COLON] + (SpellItem(e.item) + tail);
    var s := SpellString(e.key) + (e.behind + colon);
    assert SpellEntry(e) + tail == e.before + s;
    SkipWsOver(e.before, s);
    ReadSpelledString(e.key, e.behind + colon);
    SkipWsOver(e.behind, colon);
    ReadItem(e.item, tail);
  }

  lemma {:induction false} ReadOnlyEntry(e: Entry, rest: Text)
    requires IsBlank(e.before) && LegalGlyphs(e.key) && IsBlank(e.behind) && LegalItem(e.item)
    ensures var s := SkipWs(SpellEntry(e) + ([CLOSE_BRACE] + rest));
            && s != [] && s[0] == QUOTE
            && ReadMembers(s) == Some(Read([Member(Units(e.key), Meaning(e.item.tree))], rest))
    decreases e, 3
  {
    ReadEntry(e, [CLOSE_BRACE] + rest);
    assert ([CLOSE_BRACE] + rest)[1..] == rest;
  }

  lemma {:induction false} ReadEntries(entries: seq<Entry>, rest: Text)
    requires entries != [] && LegalEntries(entries)
    ensures var s := SkipWs(SpellEntries(entries) + ([CLOSE_BRACE] + rest));
            && s != [] && s[0] == QUOTE
            && ReadMembers(s) == Some(Read(EntryMembers(entries), rest))
    decreases entries, 3
  {
    var end := [CLOSE_BRACE] + rest;
    var m := Member(Units(entries[0].key), Meaning(entries[0].item.tree));
    if |entries| == 1 {
      ReadOnlyEntry(entries[0], rest);
      assert EntryMembers(entries) == [m] + EntryMembers(entries[1..]) == [m];
    } else {
      var more := SpellEntries(entries[1..]) + end;
      assert SpellEntries(entries) + end == SpellEntry(entries[0]) + ([COMMA] + more);
      ReadEntry(entries[0], [COMMA] + more);
      ReadEntries(entries[1..], rest);
      assert ([COMMA] + more)[1..] == more;
    }
  }

  // ------------------------------------------------------------------- the guard

  /** The body of a string after the first pass of the guard. */
  function Dulled(gs: seq<Glyph>): (r: Text)
    requires LegalGlyphs(gs)
    ensures forall i :: 0 <= i < |r| ==> IsStringBody(r[i])
  {
    if gs == [] then [] else [if gs[0].Raw? then gs[0].u else AT] + Dulled(gs[1..])
  }

  lemma BlankGlyph(g: Glyph, s: Text)
    requires LegalGlyph(g)
    ensures BlankEscapes(SpellGlyph(g) + s) == [if g.Raw? then g.u else AT] + BlankEscapes(s)
  {
    var t := SpellGlyph(g) + s;
    match g
    case Raw(u) => assert t[1..] == s;
    case Short(u) => assert t[2..] == s;
    case Hex(u, a, b, c, d) =>
      FourDigitsAreHex(u, a, b, c, d);
      BlankHex(FourDigits(u, a, b, c, d), s);
  }

  lemma {:induction false} BlankGlyphs(gs: seq<Glyph>, s: Text)
    requires LegalGlyphs(gs)
    ensures BlankEscapes(SpellGlyphs(gs) + s) == Dulled(gs) + BlankEscapes(s)
  {
    if gs == [] {
      assert SpellGlyphs(gs) + s == s;
      assert [] + BlankEscapes(s) == BlankEscapes(s);
    } else {
      var mark := if gs[0].Raw? then gs[0].u else AT;
      Associate(SpellGlyph(gs[0]), SpellGlyphs(gs[1..]), s);
      BlankGlyph(gs[0], SpellGlyphs(gs[1..]) + s);
      BlankGlyphs(gs[1..], s);
      Associate([mark], Dulled(gs[1..]), BlankEscapes(s));
    }
  }

  lemma AcceptedString(gs: seq<Glyph>, s: Text, armed: bool)
    requires LegalGlyphs(gs) && Accepted(s, false)
    ensures Accepted(SpellString(gs) + s, armed)
  {
    var closed := [QUOTE] + s;
    assert SpellString(gs) + s == [QUOTE] + (SpellGlyphs(gs) + closed);
    BlankEscapesOver([QUOTE], SpellGlyphs(gs) + closed);
    BlankGlyphs(gs, closed);
    BlankEscapesOver([QUOTE], s);
    assert [QUOTE] + (Dulled(gs) + ([QUOTE] + BlankEscapes(s))) == [QUOTE] + Dulled(gs) + [QUOTE] + BlankEscapes(s);
    QuotedToken(Dulled(gs), BlankEscapes(s));
  }

  /** The main induction: a spelled value is accepted wherever a value may stand. */
  lemma {:induction false} AcceptedSpelled(t: Tree, rest: Text)
    requires Legal(t) && StopsNumber(rest) && Accepted(rest, false)
    ensures Accepted(Spell(t) + rest, true)
    decreases t, 1
  {
    match t
    case Nothing => AcceptedLiteral(NULL, rest, true);
    case Truth(b) => AcceptedLiteral(if b then TRUE else FALSE, rest, true);
    case Figure(numeral) =>
      NumeralIsNumber(numeral);
      AcceptedNumber(SpellNumeral(numeral), rest, true);
    case Words(glyphs) => AcceptedString(glyphs, rest, true);
    case List(blank, items) => AcceptedList(blank, items, rest);
    case Table(blank, entries) => AcceptedTable(blank, entries, rest);
  }

  lemma AcceptedClosing(close: Unit, blank: Text, rest: Text, armed: bool)
    requires (close == CLOSE_BRACKET || close == CLOSE_BRACE) && IsBlank(blank) && Accepted(rest, false)
    ensures Accepted(blank + ([close] + rest), armed) && Accepted([close] + rest, false)
  {
    AcceptedMark(close, rest, armed);
    AcceptedMark(close, rest, false);
    AcceptedWs(blank, [close] + rest, armed);
  }

  lemma AcceptedBrackets(open: Unit, body: Text, close: Unit, rest: Text)
    requires open == OPEN_BRACKET || open == OPEN_BRACE
    requires Accepted(body + ([close] + rest), open == OPEN_BRACKET)
    ensures Accepted([open] + body + [close] + rest, true)
  {
    AcceptedMark(open, body + ([close] + rest), true);
    Bracketed(open, body, close, rest);
  }

  lemma {:induction false} AcceptedList(blank: Text, items: seq<Item>, rest: Text)
    requires IsBlank(blank) && LegalItems(items) && Accepted(rest, false)
    ensures Accepted(Spell(List(blank, items)) + rest, true)
    decreases items, 4
  {
    var body := if items == [] then blank else SpellItems(items);
    AcceptedClosing(CLOSE_BRACKET, blank, rest, true);
    if items != [] { AcceptedItems(items, [CLOSE_BRACKET] + rest); }
    AcceptedBrackets(OPEN_BRACKET, body, CLOSE_BRACKET, rest);
  }

  lemma {:induction false} AcceptedTable(blank: Text, entries: seq<Entry>, rest: Text)
    requires IsBlank(blank) && LegalEntries(entries) && Accepted(rest, false)
    ensures Accepted(Spell(Table(blank, entries)) + rest, true)
    decreases entries, 4
  {
    var body := if entries == [] then blank else SpellEntries(entries);
    AcceptedClosing(CLOSE_BRACE, blank, rest, false);
    if entries != [] { AcceptedEntries(entries, [CLOSE_BRACE] + rest, false); }
    AcceptedBrackets(OPEN_BRACE, body, CLOSE_BRACE, rest);
  }

  lemma {:induction false} AcceptedItem(i: Item, tail: Text)
    requires LegalItem(i) && Follows(tail) && Accepted(tail, false)
    ensures Accepted(SpellItem(i) + tail, true)
    decreases i, 2
  {
    ItemShape(i, tail);
    AcceptedWs(i.after, tail, false);
    AcceptedSpelled(i.tree, i.after + tail);
    AcceptedWs(i.before, Spell(i.tree) + (i.after + tail), true);
  }

  lemma {:induction false} AcceptedItems(items: seq<Item>, end: Text)
    requires items != [] && LegalItems(items) && Follows(end) && Accepted(end, false)
    ensures Accepted(SpellItems(items) + end, true)
    decreases items, 3
  {
    if |items| == 1 {
      AcceptedItem(items[0], end);
    } else {
      var more := SpellItems(items[1..]) + end;
      assert SpellItems(items) + end == SpellItem(items[0]) + ([COMMA] + more);
      AcceptedItems(items[1..], end);
      AcceptedMark(COMMA, more, false);
      AcceptedItem(items[0], [COMMA] + more);
    }
  }

  /** An entry starts with its key, so it needs no armed start. */
  lemma {:induction false} AcceptedEntry(e: Entry, tail: Text, armed: bool)
    requires IsBlank(e.before) && LegalGlyphs(e.key) && IsBlank(e.behind) && LegalItem(e.item)
    requires Follows(tail) && Accepted(tail, false)
    ensures Accepted(SpellEntry(e) + tail, armed)
    decreases e, 2
  {
    var colon := [COLON] + (SpellItem(e.item) + tail);
    var s := SpellString(e.key) + (e.behind + colon);
    assert SpellEntry(e) + tail == e.before + s;
    AcceptedItem(e.item, tail);
    AcceptedMark(COLON, SpellItem(e.item) + tail, false);
    AcceptedWs(e.behind, colon, false);
    AcceptedString(e.key, e.behind + colon, armed);
    AcceptedWs(e.before, s, armed);
  }

  lemma {:induction false} AcceptedEntries(entries: seq<Entry>, end: Text, armed: bool)
    requires entries != [] && LegalEntries(entries) && Follows(end) && Accepted(end, false)
    ensures Accepted(SpellEntries(entries) + end, armed)
    decreases entries, 3
  {
    if |entries| == 1 {
      AcceptedEntry(entries[0], end, armed);
    } else {
      var more := SpellEntries(entries[1..]) + end;
      assert SpellEntries(entries) + end == SpellEntry(entries[0]) + ([COMMA] + more);
      AcceptedEntries(entries[1..], end, true);
      AcceptedMark(COMMA, more, false);
      AcceptedEntry(entries[0], [COMMA] + more, armed);
    }
  }
}
