/** What the indented text of json2.js looks like, line by line: every line at depth d starts with
    d copies of the indentation text. The lines are given without regard to the printer, from the
    value and the number of brackets open around it. */
module JsonLayout {
  import opened JsonText
  import opened JsonPrinter

  /** A line and the number of brackets open around it. */
  datatype Line = Line(depth: nat, text: Text)

  function Repeat(s: Text, n: nat): Text {
    if n == 0 then [] else Repeat(s, n - 1) + s
  }

  /** The lines of a value nested in `d` brackets: an opening bracket, the lines of the parts one
      deeper and separated by commas, and the closing bracket. */
  function Lines(v: Value, d: nat): (r: seq<Line>)
    ensures r != [] && r[0].depth == d
    decreases v
  {
    match v
    case Arr(elems) =>
      if elems == [] then [Line(d, [OPEN_BRACKET, CLOSE_BRACKET])]
      else [Line(d, [OPEN_BRACKET])] + ElemLines(elems, d + 1) + [Line(d, [CLOSE_BRACKET])]
    case Obj(members) =>
      if NonePrinted(members) then [Line(d, [OPEN_BRACE, CLOSE_BRACE])]
      else [Line(d, [OPEN_BRACE])] + MemberLines(members, d + 1) + [Line(d, [CLOSE_BRACE])]
    case _ => [Line(d, OrNull(Print(v, [], [])))]
  }

  predicate NonePrinted(ms: seq<Member>) {
    forall i :: 0 <= i < |ms| ==> ms[i].value == Undefined
  }

  function ElemLines(vs: seq<Value>, d: nat): seq<Line>
    requires vs != []
    decreases vs
  {
    if |vs| == 1 then Lines(vs[0], d)
    else EndWithComma(Lines(vs[0], d)) + ElemLines(vs[1..], d)
  }

  function MemberLines(ms: seq<Member>, d: nat): seq<Line>
    requires !NonePrinted(ms)
    decreases ms
  {
    if ms[0].value == Undefined then MemberLines(ms[1..], d)
    else
      var first := StartWith(Quote(ms[0].key) + [COLON, SPACE], Lines(ms[0].value, d));
      if NonePrinted(ms[1..]) then first else EndWithComma(first) + MemberLines(ms[1..], d)
  }

  function EndWithComma(lines: seq<Line>): (r: seq<Line>)
    requires lines != []
  {
    var last := lines[|lines| - 1];
    lines[|lines| - 1 := Line(last.depth, last.text + [COMMA])]
  }

  function StartWith(text: Text, lines: seq<Line>): (r: seq<Line>)
    requires lines != []
  {
    lines[0 := Line(lines[0].depth, text + lines[0].text)]
  }

  function Layout(lines: seq<Line>, indent: Text): Text {
    if lines == [] then []
    else
      var first := Repeat(indent, lines[0].depth) + lines[0].text;
      if |lines| == 1 then first else first + ([NEWLINE] + Layout(lines[1..], indent))
  }

  // --------------------------------------------------------------- small lemmas

  lemma {:induction false} LayoutConcat(a: seq<Line>, b: seq<Line>, indent: Text)
    requires a != [] && b != []
    ensures Layout(a + b, indent) == Layout(a, indent) + ([NEWLINE] + Layout(b, indent))
  {
    assert (a + b)[1..] == a[1..] + b;
    if |a| > 1 {
      LayoutConcat(a[1..], b, indent);
      var first := Repeat(indent, a[0].depth) + a[0].text;
      Associate(first, [NEWLINE] + Layout(a[1..], indent), [NEWLINE] + Layout(b, indent));
      Associate([NEWLINE], Layout(a[1..], indent), [NEWLINE] + Layout(b, indent));
    } else {
      assert a[1..] + b == b;
    }
  }

  lemma {:induction false} LayoutComma(lines: seq<Line>, indent: Text)
    requires lines != []
    ensures Layout(EndWithComma(lines), indent) == Layout(lines, indent) + [COMMA]
  {
    var first := Repeat(indent, lines[0].depth);
    if |lines| > 1 {
      LayoutComma(lines[1..], indent);
      assert EndWithComma(lines)[1..] == EndWithComma(lines[1..]);
      Associate(first + lines[0].text, [NEWLINE] + Layout(lines[1..], indent), [COMMA]);
      Associate([NEWLINE], Layout(lines[1..], indent), [COMMA]);
    } else {
      Associate(first, lines[0].text, [COMMA]);
    }
  }

  lemma LayoutPrefix(text: Text, lines: seq<Line>, rest: Text, indent: Text)
    requires lines != [] && Layout(lines, indent) == Repeat(indent, lines[0].depth) + rest
    ensures Layout(StartWith(text, lines), indent) == Repeat(indent, lines[0].depth) + (text + rest)
  {
    var before := Repeat(indent, lines[0].depth);
    var after := if |lines| == 1 then [] else [NEWLINE] + Layout(lines[1..], indent);
    assert StartWith(text, lines)[1..] == lines[1..];
    assert lines[0].text + [] == lines[0].text && (text + lines[0].text) + [] == text + lines[0].text;
    assert before + (text + lines[0].text) + [] == before + (text + lines[0].text);
    Associate(before, lines[0].text, after);
    SameEnd(before, lines[0].text + after, rest);
    Associate(before, text + lines[0].text, after);
    Associate(text, lines[0].text, after);
  }

  lemma SameEnd(a: Text, b: Text, c: Text)
    requires a + b == a + c
    ensures b == c
  {
    assert (a + b)[|a|..] == b && (a + c)[|a|..] == c;
  }

  /** A bracketed block of lines around its parts. */
  lemma LayoutBlock(open: Unit, body: seq<Line>, close: Unit, d: nat, indent: Text)
    requires body != []
    ensures Layout([Line(d, [open])] + body + [Line(d, [close])], indent)
         == Repeat(indent, d)
            + ([open, NEWLINE] + Layout(body, indent) + [NEWLINE] + Repeat(indent, d) + [close])
  {
    var gap := Repeat(indent, d);
    LayoutConcat([Line(d, [open])], body, indent);
    LayoutConcat([Line(d, [open])] + body, [Line(d, [close])], indent);
    BlockText(gap, open, Layout(body, indent), close);
  }

  lemma BlockText(gap: Text, open: Unit, body: Text, close: Unit)
    ensures gap + [open] + ([NEWLINE] + body) + ([NEWLINE] + (gap + [close]))
         == gap + ([open, NEWLINE] + body + [NEWLINE] + gap + [close])
  {
  }

  // ---------------------------------------------------------------- the theorem

  lemma {:induction false} NothingPrinted(ms: seq<Member>, gap: Text, indent: Text)
    ensures PrintMembers(ms, gap, indent) == [] <==> NonePrinted(ms)
  {
    if ms != [] {
      NothingPrinted(ms[1..], gap, indent);
      assert NonePrinted(ms) <==> ms[0].value == Undefined && NonePrinted(ms[1..]) by {
        assert forall i :: 0 <= i < |ms[1..]| ==> ms[1..][i] == ms[i + 1];
        assert forall i :: 1 <= i < |ms| ==> ms[i] == ms[1..][i - 1];
      }
    }
  }

  /** The text printed at depth d is the lines of the value, each indented by as many copies of
      `indent` as brackets are open around it. */
  lemma {:induction false} PrintIsLayout(v: Value, d: nat, indent: Text)
    requires indent != []
    ensures Layout(Lines(v, d), indent)
         == Repeat(indent, d) + OrNull(Print(v, Repeat(indent, d), indent))
    decreases v, 2
  {
    match v
    case Arr(elems) => ArrayIsLayout(elems, d, indent);
    case Obj(members) => ObjectIsLayout(members, d, indent);
    case _ =>
  }

  lemma {:induction false} ArrayIsLayout(elems: seq<Value>, d: nat, indent: Text)
    requires indent != []
    ensures Layout(Lines(Arr(elems), d), indent)
         == Repeat(indent, d) + OrNull(Print(Arr(elems), Repeat(indent, d), indent))
    decreases elems, 2
  {
    var gap := Repeat(indent, d);
    if elems != [] {
      ElemsAreLayout(elems, d + 1, indent);
      FramedLayout(OPEN_BRACKET, ElemLines(elems, d + 1), CLOSE_BRACKET, PrintElems(elems, gap + indent, indent), d, indent);
    }
  }

  lemma {:induction false} ObjectIsLayout(members: seq<Member>, d: nat, indent: Text)
    requires indent != []
    ensures Layout(Lines(Obj(members), d), indent)
         == Repeat(indent, d) + OrNull(Print(Obj(members), Repeat(indent, d), indent))
    decreases members, 2
  {
    var gap := Repeat(indent, d);
    NothingPrinted(members, gap + indent, indent);
    if !NonePrinted(members) {
      MembersAreLayout(members, d + 1, indent);
      FramedLayout(OPEN_BRACE, MemberLines(members, d + 1), CLOSE_BRACE, PrintMembers(members, gap + indent, indent), d, indent);
    }
  }

  lemma FramedLayout(open: Unit, body: seq<Line>, close: Unit, partial: seq<Text>, d: nat, indent: Text)
    requires body != [] && partial != [] && indent != []
    requires Layout(body, indent) == Repeat(indent, d + 1) + Join(partial, [COMMA, NEWLINE] + Repeat(indent, d + 1))
    ensures Layout([Line(d, [open])] + body + [Line(d, [close])], indent)
         == Repeat(indent, d) + Wrap(open, close, partial, Repeat(indent, d) + indent, Repeat(indent, d))
  {
    LayoutBlock(open, body, close, d, indent);
  }

  lemma PartsText(gap: Text, first: Text, rest: Text)
    ensures gap + first + [COMMA] + ([NEWLINE] + (gap + rest)) == gap + (first + ([COMMA, NEWLINE] + gap) + rest)
  {
  }

  lemma {:induction false} ElemsAreLayout(vs: seq<Value>, d: nat, indent: Text)
    requires vs != [] && indent != []
    ensures var gap := Repeat(indent, d);
            ElemLines(vs, d) != []
            && Layout(ElemLines(vs, d), indent) == gap + Join(PrintElems(vs, gap, indent), [COMMA, NEWLINE] + gap)
    decreases vs, 1
  {
    var gap := Repeat(indent, d);
    PrintIsLayout(vs[0], d, indent);
    if |vs| > 1 {
      ElemsAreLayout(vs[1..], d, indent);
      var first := OrNull(Print(vs[0], gap, indent));
      LayoutComma(Lines(vs[0], d), indent);
      LayoutConcat(EndWithComma(Lines(vs[0], d)), ElemLines(vs[1..], d), indent);
      PartsText(gap, first, Join(PrintElems(vs[1..], gap, indent), [COMMA, NEWLINE] + gap));
    }
  }

  lemma {:induction false} MembersAreLayout(ms: seq<Member>, d: nat, indent: Text)
    requires !NonePrinted(ms) && indent != []
    requires d > 0
    ensures var gap := Repeat(indent, d);
            MemberLines(ms, d) != []
            && Layout(MemberLines(ms, d), indent) == gap + Join(PrintMembers(ms, gap, indent), [COMMA, NEWLINE] + gap)
    decreases ms, 1
  {
    var gap := Repeat(indent, d);
    var more := PrintMembers(ms[1..], gap, indent);
    NothingPrinted(ms[1..], gap, indent);
    if ms[0].value == Undefined {
      MembersAreLayout(ms[1..], d, indent);
    } else {
      var first := OneMember(ms[0], d, indent);
      if more != [] {
        var lines := StartWith(Quote(ms[0].key) + [COLON, SPACE], Lines(ms[0].value, d));
        MembersAreLayout(ms[1..], d, indent);
        LayoutComma(lines, indent);
        LayoutConcat(EndWithComma(lines), MemberLines(ms[1..], d), indent);
        PartsText(gap, first, Join(more, [COMMA, NEWLINE] + gap));
      }
    }
  }

  lemma {:induction false} OneMember(m: Member, d: nat, indent: Text) returns (text: Text)
    requires m.value != Undefined && indent != [] && d > 0
    ensures var gap := Repeat(indent, d);
            && text == Quote(m.key) + KeySeparator(gap) + OrNull(Print(m.value, gap, indent))
            && Layout(StartWith(Quote(m.key) + [COLON, SPACE], Lines(m.value, d)), indent) == gap + text
    decreases m, 1
  {
    var gap := Repeat(indent, d);
    text := Quote(m.key) + KeySeparator(gap) + OrNull(Print(m.value, gap, indent));
    PrintIsLayout(m.value, d, indent);
    LayoutPrefix(Quote(m.key) + [COLON, SPACE], Lines(m.value, d), OrNull(Print(m.value, gap, indent)), indent);
  }
}
