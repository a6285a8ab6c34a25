/** The printer of json2.js: `quote`, `str` and `JSON.stringify`. */
module JsonPrinter {
  import opened Wrappers
  import opened JsonText

  /** A JavaScript value as `str` distinguishes them. `Undefined` stands for functions too,
      `NonFinite` for NaN and the infinities; a finite number is the text String() gives it. */
  datatype Value =
    | Undefined
    | Null
    | Bool(b: bool)
    | Number(text: Text)
    | NonFinite
    | Str(s: Text)
    | Arr(elems: seq<Value>)
    | Obj(members: seq<Member>)

  datatype Member = Member(key: Text, value: Value)

  /** What holds of every JavaScript value: finite numbers print in the number grammar
      and an object has each key once. */
  predicate WellFormed(v: Value) {
    match v
    case Number(text) => IsNumber(text)
    case Arr(elems) => forall i :: 0 <= i < |elems| ==> WellFormed(elems[i])
    case Obj(members) =>
      UniqueKeys(members) && forall i :: 0 <= i < |members| ==> WellFormed(members[i].value)
    case _ => true
  }

  predicate UniqueKeys(ms: seq<Member>) {
    forall i, j :: 0 <= i < j < |ms| ==> ms[i].key != ms[j].key
  }

  // ---------------------------------------------------------------------- quote

  /** The table `meta`, with the \u form for the units it lacks. */
  function EscapeUnit(u: Unit): Text {
    if u == BACKSPACE then [BACKSLASH, LETTER_B]
    else if u == TAB then [BACKSLASH, LETTER_T]
    else if u == NEWLINE then [BACKSLASH, LETTER_N]
    else if u == FORM_FEED then [BACKSLASH, LETTER_F]
    else if u == RETURN then [BACKSLASH, LETTER_R]
    else if u == QUOTE then [BACKSLASH, QUOTE]
    else if u == BACKSLASH then [BACKSLASH, BACKSLASH]
    else [BACKSLASH, LETTER_U] + HexPad(u)
  }

  /** `string.replace(escapable, ...)` */
  function Escape(s: Text): Text {
    if s == [] then []
    else (if IsEscapable(s[0]) then EscapeUnit(s[0]) else [s[0]]) + Escape(s[1..])
  }

  function Quote(s: Text): Text {
    if exists i :: 0 <= i < |s| && IsEscapable(s[i]) then [QUOTE] + Escape(s) + [QUOTE]
    else [QUOTE] + s + [QUOTE]
  }

  // ------------------------------------------------------------------------ str

  function Join(parts: seq<Text>, separator: Text): Text {
    if parts == [] then []
    else if |parts| == 1 then parts[0]
    else parts[0] + separator + Join(parts[1..], separator)
  }

  /** The bracketed text around the `partial` results; `mind` is the gap outside. */
  function Wrap(open: Unit, close: Unit, partial: seq<Text>, gap: Text, mind: Text): Text {
    if partial == [] then [open, close]
    else if gap != [] then
      [open, NEWLINE] + gap + Join(partial, [COMMA, NEWLINE] + gap) + [NEWLINE] + mind + [close]
    else [open] + Join(partial, [COMMA]) + [close]
  }

  function OrNull(r: Option<Text>): Text {
    match r
    case Some(text) => text
    case None => NULL
  }

  function KeySeparator(gap: Text): Text {
    if gap != [] then [COLON, SPACE] else [COLON]
  }

  /** What `str` returns for `v` when the shared gap is `gap`. */
  function Print(v: Value, gap: Text, indent: Text): Option<Text>
    decreases v
  {
    match v
    case Undefined => None
    case Null => Some(NULL)
    case Bool(b) => Some(if b then TRUE else FALSE)
    case Number(text) => Some(text)
    case NonFinite => Some(NULL)
    case Str(s) => Some(Quote(s))
    case Arr(elems) =>
      Some(Wrap(OPEN_BRACKET, CLOSE_BRACKET, PrintElems(elems, gap + indent, indent), gap + indent, gap))
    case Obj(members) =>
      Some(Wrap(OPEN_BRACE, CLOSE_BRACE, PrintMembers(members, gap + indent, indent), gap + indent, gap))
  }

  function PrintElems(vs: seq<Value>, gap: Text, indent: Text): (r: seq<Text>)
    ensures |r| == |vs|
    decreases vs
  {
    if vs == [] then [] else [OrNull(Print(vs[0], gap, indent))] + PrintElems(vs[1..], gap, indent)
  }

  function PrintMembers(ms: seq<Member>, gap: Text, indent: Text): seq<Text>
    decreases ms
  {
    if ms == [] then []
    else
      var rest := PrintMembers(ms[1..], gap, indent);
      match Print(ms[0].value, gap, indent)
      case None => rest
      case Some(text) => [Quote(ms[0].key) + KeySeparator(gap) + text] + rest
  }

  lemma {:induction false} PrintElemsSnoc(vs: seq<Value>, v: Value, gap: Text, indent: Text)
    ensures PrintElems(vs + [v], gap, indent) == PrintElems(vs, gap, indent) + [OrNull(Print(v, gap, indent))]
  {
    if vs == [] {
      assert vs + [v] == [v];
    } else {
      assert (vs + [v])[1..] == vs[1..] + [v];
      PrintElemsSnoc(vs[1..], v, gap, indent);
    }
  }

  lemma {:induction false} PrintMembersSnoc(ms: seq<Member>, m: Member, gap: Text, indent: Text)
    ensures PrintMembers(ms + [m], gap, indent) == PrintMembers(ms, gap, indent) + PrintMembers([m], gap, indent)
  {
    if ms == [] {
      assert ms + [m] == [m];
    } else {
      assert (ms + [m])[1..] == ms[1..] + [m];
      PrintMembersSnoc(ms[1..], m, gap, indent);
    }
  }

  /** `v` is truthy: every text `str` returns is, so only `undefined` is skipped. */
  lemma PrintNotEmpty(v: Value, gap: Text, indent: Text)
    requires WellFormed(v)
    ensures Print(v, gap, indent) != Some([])
  {
  }

  // ------------------------------------------------------------------ stringify

  datatype Space = NoSpace | Count(n: int) | Chars(text: Text)

  function Spaces(n: int): (r: Text)
    ensures |r| == (if n < 0 then 0 else n)
    ensures forall i :: 0 <= i < |r| ==> r[i] == SPACE
  {
    seq(if n < 0 then 0 else n, _ => SPACE)
  }

  function IndentOf(space: Space): Text {
    match space
    case NoSpace => []
    case Count(n) => Spaces(n)
    case Chars(text) => text
  }

  /** The closure variables `gap` and `indent` with the functions that share them. */
  class Printer {
    var gap: Text
    var indent: Text

    constructor ()
      ensures gap == [] && indent == []
    {
      gap, indent := [], [];
    }

    /** `str`: the gap is restored at every exit, and the text depends only on value, gap and indent. */
    method Str(value: Value) returns (r: Option<Text>)
      requires WellFormed(value)
      modifies this`gap
      ensures gap == old(gap)
      ensures r == Print(value, gap, indent)
      decreases value
    {
      var mind := gap;
      match value
      case Undefined =>
        return None;
      case Null =>
        return Some(NULL);
      case Bool(b) =>
        return Some(if b then TRUE else FALSE);
      case Number(text) =>
        return Some(text);
      case NonFinite =>
        return Some(NULL);
      case Str(s) =>
        return Some(Quote(s));
      case Arr(elems) =>
        gap := gap + indent;
        var partial := [];
        for i := 0 to |elems|
          invariant gap == mind + indent
          invariant partial == PrintElems(elems[..i], gap, indent)
        {
          var v := Str(elems[i]);
          PrintElemsSnoc(elems[..i], elems[i], gap, indent);
          assert elems[..i + 1] == elems[..i] + [elems[i]];
          PrintNotEmpty(elems[i], gap, indent);
          partial := partial + [if v.Some? && v.value != [] then v.value else NULL];
        }
        assert elems[..|elems|] == elems;
        r := Some(Wrap(OPEN_BRACKET, CLOSE_BRACKET, partial, gap, mind));
        gap := mind;
      case Obj(members) =>
        gap := gap + indent;
        var partial := [];
        for i := 0 to |members|
          invariant gap == mind + indent
          invariant partial == PrintMembers(members[..i], gap, indent)
        {
          var v := Str(members[i].value);
          PrintMembersSnoc(members[..i], members[i], gap, indent);
          assert members[..i + 1] == members[..i] + [members[i]];
          PrintNotEmpty(members[i].value, gap, indent);
          if v.Some? && v.value != [] {
            partial := partial + [Quote(members[i].key) + KeySeparator(gap) + v.value];
          }
        }
        assert members[..|members|] == members;
        r := Some(Wrap(OPEN_BRACE, CLOSE_BRACE, partial, gap, mind));
        gap := mind;
    }

    /** `JSON.stringify(value, undefined, space)` */
    method Stringify(value: Value, space: Space) returns (r: Option<Text>)
      requires WellFormed(value)
      modifies this
      ensures gap == [] && indent == IndentOf(space)
      ensures space.Chars? ==> indent == space.text
      ensures space.NoSpace? ==> indent == []
      ensures space.Count? ==> |indent| == (if space.n < 0 then 0 else space.n) && forall i :: 0 <= i < |indent| ==> indent[i] == SPACE
      ensures r == Print(value, [], IndentOf(space))
    {
      gap, indent := [], [];
      match space {
        case NoSpace =>
        case Count(n) =>
          var i := 0;
          while i < n
            invariant indent == Spaces(i)
            invariant gap == [] && 0 <= i && (i <= n || i == 0)
          {
            indent := indent + [SPACE];
            i := i + 1;
          }
        case Chars(text) =>
          indent := text;
      }
      r := Str(value);
    }
  }
}
