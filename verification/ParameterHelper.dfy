/** `ParameterHelper` of gt_base.js: parameters appended to a URL and read back from it. The
    functions encodeURI and decodeURI are parameters. */
module ParameterHelper {
  import opened Wrappers
  import opened JsonText
  import opened JsonPrinter
  import JsonEval
  import JsonGuard
  import JsonStrings
  import Strings

  const QUESTION: Unit := 0x3F
  const HASH: Unit := 0x23
  const AMPERSAND: Unit := 0x26
  const EQUALS: Unit := 0x3D

  /** `__json__:` */
  const JSON_PREFIX: Text := [0x5F, 0x5F, 0x6A, 0x73, 0x6F, 0x6E, 0x5F, 0x5F, 0x3A]

  /** `_null_` and its value `0` */
  const PLACEHOLDER: Text := [0x5F, 0x6E, 0x75, 0x6C, 0x6C, 0x5F]
  const PLACEHOLDER_VALUE: Text := [0x30]

  // ------------------------------------------------------------------- building

  /** `length` */
  const LENGTH: Text := [0x6C, 0x65, 0x6E, 0x67, 0x74, 0x68]

  /** A parameter value: undefined, null, an object or array, or what is printed as it is. */
  datatype ParamValue = Undefined | Null | Structure(value: Value) | Plain(text: Text) {
    predicate Missing() {
      Undefined? || Null?
    }
  }

  datatype Param = Param(name: Text, value: ParamValue)

  /** Objects and arrays print as JSON. */
  predicate ValidParam(p: Param) {
    p.value.Structure? ==> WellFormed(p.value.value) && (p.value.value.Obj? || p.value.value.Arr?)
  }

  function ValueText(v: ParamValue): Text {
    match v
    case Undefined => []
    case Null => []
    case Structure(value) => JSON_PREFIX + OrNull(Print(value, [], []))
    case Plain(text) => text
  }

  function Segment(p: Param, enc: Text -> Text): Text {
    enc(p.name) + [EQUALS] + enc(ValueText(p.value))
  }

  function Find(params: seq<Param>, name: Text): ParamValue {
    if params == [] then ParamValue.Undefined
    else if params[0].name == name then params[0].value
    else Find(params[1..], name)
  }

  /** `'' + i` */
  function Index(i: nat): Text {
    var digits := Strings.Decimal(i);
    seq(|digits|, k requires 0 <= k < |digits| => digits[k] as int)
  }

  /** The rounds of `i < length`; a null length gives none, for any other value JavaScript's
      conversion to numbers is a parameter. */
  function Rounds(length: ParamValue, rounds: ParamValue -> nat): nat {
    if length.Missing() then 0 else rounds(length)
  }

  /** What an index loop visits. */
  function Indexed(params: seq<Param>, n: nat): seq<Param> {
    seq(n, i requires 0 <= i < n => Param(Index(i), Find(params, Index(i))))
  }

  /** What `jQuery.each` visits: the names, but indices as soon as the object has a length. */
  function Visited(params: seq<Param>, rounds: ParamValue -> nat): seq<Param> {
    var length := Find(params, LENGTH);
    if length.Undefined? then params else Indexed(params, Rounds(length, rounds))
  }

  /** What one parameter adds. */
  function Piece(p: Param, enc: Text -> Text): Text {
    if p.value.Missing() then [] else [AMPERSAND] + Segment(p, enc)
  }

  /** What visiting adds. */
  function Pieces(params: seq<Param>, enc: Text -> Text): Text {
    if params == [] then [] else Piece(params[0], enc) + Pieces(params[1..], enc)
  }

  function Build(params: seq<Param>, rounds: ParamValue -> nat, enc: Text -> Text): Text {
    Pieces(Visited(params, rounds), enc)
  }

  function Append(url: Text, params: seq<Param>, rounds: ParamValue -> nat, enc: Text -> Text): Text {
    (if QUESTION in url then url else url + ([QUESTION] + (PLACEHOLDER + [EQUALS] + PLACEHOLDER_VALUE)))
    + Build(params, rounds, enc)
  }

  lemma PiecesStep(done: Text, params: seq<Param>, i: nat, enc: Text -> Text)
    requires i < |params|
    ensures (done + Piece(params[i], enc)) + Pieces(params[i + 1..], enc) == done + Pieces(params[i..], enc)
  {
    assert params[i..][1..] == params[i + 1..];
    Associate(done, Piece(params[i], enc), Pieces(params[i + 1..], enc));
  }

  /** The callback that `build` gives to `jQuery.each`. */
  method AddPiece(text: Text, name: Text, value: ParamValue, enc: Text -> Text) returns (longer: Text)
    ensures longer == text + Piece(Param(name, value), enc)
  {
    if value.Missing() {
      assert text + [] == text;
      return text;
    }
    return text + ([AMPERSAND] + (enc(name) + [EQUALS] + enc(ValueText(value))));
  }

  /** `build`: the two loops of `jQuery.each`. */
  method BuildLoop(params: seq<Param>, rounds: ParamValue -> nat, enc: Text -> Text) returns (text: Text)
    ensures text == Build(params, rounds, enc)
  {
    text := [];
    ghost var visited := Visited(params, rounds);
    ghost var all := Pieces(visited, enc);
    var length := Find(params, LENGTH);
    if length.Undefined? {
      for i := 0 to |params|
        invariant text + Pieces(params[i..], enc) == all
      {
        PiecesStep(text, params, i, enc);
        text := AddPiece(text, params[i].name, params[i].value, enc);
      }
    } else {
      var i := 0;
      while i < Rounds(length, rounds)
        invariant 0 <= i <= |visited| == Rounds(length, rounds)
        invariant text + Pieces(visited[i..], enc) == all
      {
        PiecesStep(text, visited, i, enc);
        text := AddPiece(text, Index(i), Find(params, Index(i)), enc);
        i := i + 1;
      }
    }
    assert visited[|visited|..] == [] && text + [] == text;
  }

  // -------------------------------------------------------------------- parsing

  /** `s.split(separator)` for a single unit. */
  function Split(s: Text, separator: Unit): (parts: seq<Text>)
    ensures parts != []
  {
    if s == [] then [[]]
    else
      var rest := Split(s[1..], separator);
      if s[0] == separator then [[]] + rest else [[s[0]] + rest[0]] + rest[1..]
  }

  /** `/^__json__:.+/` */
  predicate IsJson(text: Text) {
    JSON_PREFIX < text && !IsLineEnd(text[|JSON_PREFIX|])
  }

  datatype ParseError = BadJson

  function ReadValue(text: Text): Result<Value, ParseError> {
    if IsJson(text) then
      match JsonGuard.Parse(text[|JSON_PREFIX|..])
      case Success(v) => Success(v)
      case Failure(_) => Failure(BadJson)
    else Success(Str(text))
  }

  /** What the page brings: decodeURI, and the names that every object inherits. */
  datatype Page = Page(dec: Text -> Text, inherited: Text -> bool)

  /** The first value of a name. An inherited member, always a function, passes for an earlier value. */
  function Entered(name: Text, v: Value, page: Page): Value {
    if page.inherited(name) then Arr([Value.Undefined, v]) else v
  }

  /** A repeated name collects its values in an array; a JSON array is taken for such a collection. */
  function Put(values: map<Text, Value>, name: Text, v: Value, page: Page): map<Text, Value> {
    if name !in values then values[name := Entered(name, v, page)]
    else if values[name] == Value.Null then values[name := v]
    else if values[name].Arr? then values[name := Arr(values[name].elems + [v])]
    else values[name := Arr([values[name], v])]
  }

  /** One `name=value` segment; without an equals sign it is skipped. */
  function ParseSegment(segment: Text, values: map<Text, Value>, page: Page): Result<map<Text, Value>, ParseError> {
    var arg := Split(segment, EQUALS);
    if |arg| <= 1 then Success(values)
    else
      match ReadValue(page.dec(arg[1]))
      case Failure(e) => Failure(e)
      case Success(v) => Success(Put(values, arg[0], v, page))
  }

  function ParseSegments(segments: seq<Text>, values: map<Text, Value>, page: Page): Result<map<Text, Value>, ParseError>
    decreases |segments|
  {
    if segments == [] then Success(values)
    else
      match ParseSegment(segments[0], values, page)
      case Failure(e) => Failure(e)
      case Success(next) => ParseSegments(segments[1..], next, page)
  }

  /** The query of a link, None when it has none. */
  function Query(href: Text): Option<Text> {
    var clean := Split(href, HASH)[0];
    var args := Split(clean, QUESTION);
    if |args| <= 1 then None else Some(args[1])
  }

  function Parse(href: Text, page: Page): Result<map<Text, Value>, ParseError> {
    match Query(href)
    case None => Success(map[])
    case Some(query) => ParseSegments(Split(query, AMPERSAND), map[], page)
  }

  /** The test `args[0] == cleanHref` for a link without a query. */
  lemma {:induction false} NoQuery(s: Text, separator: Unit)
    ensures Split(s, separator)[0] == s <==> separator !in s
    ensures |Split(s, separator)| == 1 <==> separator !in s
  {
    if s != [] {
      NoQuery(s[1..], separator);
      assert s == [s[0]] + s[1..];
      assert separator in s <==> s[0] == separator || separator in s[1..];
    }
  }

  /** The loop of `parse`. */
  method ParseLoop(href: Text, page: Page) returns (r: Result<map<Text, Value>, ParseError>)
    ensures r == Parse(href, page)
  {
    var clean := Split(href, HASH)[0];
    var args := Split(clean, QUESTION);
    NoQuery(clean, QUESTION);
    if args[0] == clean {
      return Success(map[]);
    }
    var segments := Split(args[1], AMPERSAND);
    var values: map<Text, Value> := map[];
    for i := 0 to |segments|
      invariant ParseSegments(segments[i..], values, page) == Parse(href, page)
    {
      assert segments[i..][1..] == segments[i + 1..];
      match ParseSegment(segments[i], values, page) {
        case Failure(e) => return Failure(e);
        case Success(next) => values := next;
      }
    }
    return Success(values);
  }

  // ----------------------------------------------------------------- round trip

  /** None of the units that structure a link. */
  predicate Clean(s: Text) {
    AMPERSAND !in s && EQUALS !in s && HASH !in s && QUESTION !in s
  }

  /** Letters, digits and `_`, which encodeURI leaves alone. */
  predicate Unreserved(s: Text) {
    forall i :: 0 <= i < |s| ==>
      0x30 <= s[i] <= 0x39 || 0x41 <= s[i] <= 0x5A || 0x61 <= s[i] <= 0x7A || s[i] == 0x5F
  }

  /** What is taken for granted of encodeURI and decodeURI, and that no object inherits `_null_`. */
  ghost predicate Codec(enc: Text -> Text, page: Page) {
    && !page.inherited(PLACEHOLDER)
    && (forall t: Text :: page.dec(enc(t)) == t)
    && (forall t: Text :: Clean(t) ==> Clean(enc(t)))
    && (forall t: Text :: Unreserved(t) ==> enc(t) == t)
  }

  /** A parameter whose text cannot be mistaken for the structure of the link. */
  predicate Travels(p: Param) {
    && ValidParam(p) && Unreserved(p.name) && p.name != PLACEHOLDER
    && Clean(ValueText(p.value))
  }

  predicate AllTravel(params: seq<Param>) {
    && (forall i :: 0 <= i < |params| ==> Travels(params[i]))
    && (forall i, j :: 0 <= i < j < |params| ==> params[i].name != params[j].name)
  }

  /** What a parameter comes back as. */
  function Received(v: ParamValue): Value {
    match v
    case Undefined => Value.Null
    case Null => Value.Null
    case Structure(value) => JsonEval.Norm(value)
    case Plain(text) => Str(text)
  }

  function Arrived(params: seq<Param>): map<Text, Value> {
    if params == [] then map[]
    else if params[0].value.Missing() then Arrived(params[1..])
    else map[params[0].name := Received(params[0].value)] + Arrived(params[1..])
  }

  /** What reading the present parameters collects. */
  function Collected(params: seq<Param>, page: Page): Result<map<Text, Value>, ParseError> {
    if params == [] then Success(map[])
    else if params[0].value.Missing() then Collected(params[1..], page)
    else
      match ReadValue(ValueText(params[0].value))
      case Failure(e) => Failure(e)
      case Success(v) =>
        match Collected(params[1..], page)
        case Failure(e) => Failure(e)
        case Success(more) => Success(map[params[0].name := Entered(params[0].name, v, page)] + more)
  }

  function Under(values: map<Text, Value>, collected: Result<map<Text, Value>, ParseError>): Result<map<Text, Value>, ParseError> {
    if collected.Failure? then collected else Success(values + collected.value)
  }

  function Segments(params: seq<Param>, enc: Text -> Text): seq<Text> {
    if params == [] then []
    else (if params[0].value.Missing() then [] else [Segment(params[0], enc)]) + Segments(params[1..], enc)
  }

  lemma {:induction false} SplitAt(a: Text, separator: Unit, b: Text)
    requires separator !in a
    ensures Split(a + [separator] + b, separator) == [a] + Split(b, separator)
  {
    var s := a + [separator] + b;
    if a == [] {
      assert s[1..] == b;
    } else {
      assert s[1..] == a[1..] + [separator] + b;
      SplitAt(a[1..], separator, b);
      assert [a[0]] + a[1..] == a;
    }
  }

  lemma {:induction false} SplitWhole(a: Text, separator: Unit)
    requires separator !in a
    ensures Split(a, separator) == [a]
  {
    if a != [] {
      SplitWhole(a[1..], separator);
      assert [a[0]] + a[1..] == a;
    }
  }

  ghost predicate NoAmpersands(params: seq<Param>, enc: Text -> Text) {
    forall i :: 0 <= i < |params| ==> AMPERSAND !in Segment(params[i], enc)
  }

  lemma SplitFirst(first: Text, segment: Text, rest: Text)
    requires AMPERSAND !in first
    ensures Split(first + (([AMPERSAND] + segment) + rest), AMPERSAND) == [first] + Split(segment + rest, AMPERSAND)
  {
    SplitAt(first, AMPERSAND, segment + rest);
    Regroup(first, [AMPERSAND], segment, rest);
  }

  lemma Regroup(a: Text, b: Text, c: Text, d: Text)
    ensures a + ((b + c) + d) == (a + b) + (c + d)
  {
  }

  /** The query is cut into the segments that were appended. */
  lemma {:induction false} SplitSegments(first: Text, params: seq<Param>, enc: Text -> Text)
    requires AMPERSAND !in first && NoAmpersands(params, enc)
    ensures Split(first + Pieces(params, enc), AMPERSAND) == [first] + Segments(params, enc)
    decreases |params|
  {
    if params == [] {
      SplitWhole(first, AMPERSAND);
      assert first + [] == first;
    } else {
      if params[0].value.Missing() {
        SplitSegments(first, params[1..], enc);
        assert Pieces(params, enc) == Pieces(params[1..], enc) && Segments(params, enc) == Segments(params[1..], enc);
      } else {
        var segment := Segment(params[0], enc);
        SplitSegments(segment, params[1..], enc);
        SplitFirst(first, segment, Pieces(params[1..], enc));
      }
    }
  }

  lemma SegmentIsPlain(p: Param, enc: Text -> Text, page: Page)
    requires Codec(enc, page) && Travels(p)
    ensures var s := Segment(p, enc);
            && s == p.name + [EQUALS] + enc(ValueText(p.value))
            && AMPERSAND !in s && HASH !in s && QUESTION !in s
            && Split(s, EQUALS) == [p.name, enc(ValueText(p.value))]
  {
    var v := enc(ValueText(p.value));
    SplitAt(p.name, EQUALS, v);
    SplitWhole(v, EQUALS);
  }

  /** A plain text that spells a printed structure comes back as the structure. */
  lemma PrefixedTextIsNotKept(value: Value)
    requires ValidParam(Param([], Structure(value)))
    ensures var text := ValueText(Structure(value));
            IsJson(text) && ReadValue(text) == Success(JsonEval.Norm(value)) && ReadValue(text) != Success(Str(text))
  {
    var text := OrNull(Print(value, [], []));
    JsonGuard.ParseUndoesStringify(value, []);
    assert (JSON_PREFIX + text)[|JSON_PREFIX|..] == text;
    assert (JSON_PREFIX + text)[|JSON_PREFIX|] == text[0];
  }

  /** A text without the prefix is kept, and no other is: what is read from its rest is never the text. */
  lemma KeptExactlyWithoutPrefix(text: Text)
    ensures ReadValue(text) == Success(Str(text)) <==> !IsJson(text)
    ensures IsJson(text) <==>
              && 9 < |text| && text[..9] == [0x5F, 0x5F, 0x6A, 0x73, 0x6F, 0x6E, 0x5F, 0x5F, 0x3A]
              && text[9] != 0x0A && text[9] != 0x0D && text[9] != 0x2028 && text[9] != 0x2029
  {
    if IsJson(text) {
      var rest := text[|JSON_PREFIX|..];
      JsonStrings.ParsedStringIsNotItsText(JSON_PREFIX, rest);
      assert JSON_PREFIX + rest == text;
    }
  }

  /** A present parameter is kept under a name of its own, a plain text moreover without the prefix. */
  predicate Kept(p: Param, page: Page) {
    p.value.Missing() || (!page.inherited(p.name) && (p.value.Plain? ==> !IsJson(p.value.text)))
  }

  lemma {:induction false} NoUndefinedElems(vs: seq<Value>)
    ensures forall i :: 0 <= i < |JsonEval.NormElems(vs)| ==> JsonEval.NormElems(vs)[i] != Value.Undefined
  {
    if vs != [] {
      NoUndefinedElems(vs[1..]);
    }
  }

  /** No value that was sent looks like one entered under an inherited name. */
  lemma NothingSentIsWrapped(v: ParamValue, w: Value)
    ensures Received(v) != Arr([Value.Undefined, w])
  {
    if v.Structure? && v.value.Arr? {
      var elems := JsonEval.NormElems(v.value.elems);
      NoUndefinedElems(v.value.elems);
      assert Received(v) == Arr(elems);
      assert elems != [Value.Undefined, w] by {
        assert [Value.Undefined, w][0] == Value.Undefined;
      }
    }
  }

  lemma ValueComesBack(p: Param, page: Page)
    requires Travels(p) && !p.value.Missing()
    ensures var read := ReadValue(ValueText(p.value));
            read.Success? && Entered(p.name, read.value, page) == Received(p.value) <==> Kept(p, page)
  {
    var read := ReadValue(ValueText(p.value));
    if read.Success? { NothingSentIsWrapped(p.value, read.value); }
    match p.value
    case Structure(value) => PrefixedTextIsNotKept(value);
    case Plain(text) => KeptExactlyWithoutPrefix(text);
    case _ =>
  }

  ghost predicate NamesAreNew(params: seq<Param>, values: map<Text, Value>) {
    forall i :: 0 <= i < |params| ==> params[i].name !in values
  }

  lemma PutBefore(values: map<Text, Value>, name: Text, v: Value, rest: map<Text, Value>)
    ensures values[name := v] + rest == values + (map[name := v] + rest)
  {
  }

  /** The segments of the present parameters are read back one after another. */
  lemma {:induction false} SegmentsComeBack(params: seq<Param>, values: map<Text, Value>, enc: Text -> Text, page: Page)
    requires Codec(enc, page) && AllTravel(params) && NamesAreNew(params, values)
    ensures ParseSegments(Segments(params, enc), values, page) == Under(values, Collected(params, page))
    decreases |params|
  {
    if params == [] {
      assert values + map[] == values;
    } else {
      var p := params[0];
      var read := ReadValue(ValueText(p.value));
      var v := if read.Success? then Entered(p.name, read.value, page) else Value.Null;
      if p.value.Missing() {
        SegmentsComeBack(params[1..], values, enc, page);
        assert Segments(params, enc) == Segments(params[1..], enc);
      } else {
        OneIsRead(p, values, enc, page);
        if read.Success? {
          SegmentsComeBack(params[1..], values[p.name := v], enc, page);
          if Collected(params[1..], page).Success? {
            PutBefore(values, p.name, v, Collected(params[1..], page).value);
          }
        }
      }
    }
  }

  lemma OneIsRead(p: Param, values: map<Text, Value>, enc: Text -> Text, page: Page)
    requires Codec(enc, page) && Travels(p) && !p.value.Missing() && p.name !in values
    ensures var read := ReadValue(ValueText(p.value));
            ParseSegment(Segment(p, enc), values, page)
            == if read.Failure? then Failure(read.error) else Success(values[p.name := Entered(p.name, read.value, page)])
  {
    SegmentIsPlain(p, enc, page);
  }

  lemma {:induction false} PiecesHaveNoMarks(params: seq<Param>, enc: Text -> Text, page: Page)
    requires Codec(enc, page) && forall i :: 0 <= i < |params| ==> Travels(params[i])
    ensures HASH !in Pieces(params, enc) && QUESTION !in Pieces(params, enc)
  {
    if params != [] {
      PiecesHaveNoMarks(params[1..], enc, page);
      SegmentIsPlain(params[0], enc, page);
    }
  }

  const GIVEN := map[PLACEHOLDER := Str(PLACEHOLDER_VALUE)]

  /** Parsing an appended link reads the placeholder and whatever `jQuery.each` visited. */
  lemma ParseOfAppend(url: Text, params: seq<Param>, rounds: ParamValue -> nat, enc: Text -> Text, page: Page)
    requires Codec(enc, page) && AllTravel(Visited(params, rounds))
    requires QUESTION !in url && HASH !in url
    ensures Parse(Append(url, params, rounds, enc), page) == Under(GIVEN, Collected(Visited(params, rounds), page))
  {
    var visited := Visited(params, rounds);
    var first := PLACEHOLDER + [EQUALS] + PLACEHOLDER_VALUE;
    QueryOfAppend(url, params, rounds, enc, page);
    forall i | 0 <= i < |visited|
      ensures AMPERSAND !in Segment(visited[i], enc)
    {
      SegmentIsPlain(visited[i], enc, page);
    }
    SplitSegments(first, visited, enc);
    PlaceholderComesBack(enc, page);
    SegmentsComeBack(visited, GIVEN, enc, page);
  }

  // ------------------------------------------------------------- what is visited

  lemma IndexIsUnreserved(i: nat)
    ensures Unreserved(Index(i)) && Index(i) != [] && Index(i)[0] != LENGTH[0] && Index(i)[0] != PLACEHOLDER[0]
  {
  }

  lemma IndexIsInjective(i: nat, j: nat)
    requires Index(i) == Index(j)
    ensures i == j
  {
    var a, b := Strings.Decimal(i), Strings.Decimal(j);
    assert |a| == |b|;
    forall k | 0 <= k < |a|
      ensures a[k] == b[k]
    {
      assert Index(i)[k] == Index(j)[k];
    }
    assert a == b;
    Strings.NatOfDecimal(i);
    Strings.NatOfDecimal(j);
  }

  lemma {:induction false} FindTravels(params: seq<Param>, name: Text)
    requires forall i :: 0 <= i < |params| ==> Travels(params[i])
    requires Unreserved(name) && name != PLACEHOLDER
    ensures Travels(Param(name, Find(params, name)))
  {
    if params != [] && params[0].name != name {
      FindTravels(params[1..], name);
    } else if params != [] {
      assert Travels(params[0]);
    }
  }

  lemma VisitedTravel(params: seq<Param>, rounds: ParamValue -> nat)
    requires AllTravel(params)
    ensures AllTravel(Visited(params, rounds))
  {
    var visited := Visited(params, rounds);
    if !Find(params, LENGTH).Undefined? {
      forall i | 0 <= i < |visited|
        ensures Travels(visited[i])
      {
        IndexIsUnreserved(i);
        FindTravels(params, Index(i));
      }
      forall i, j | 0 <= i < j < |visited|
        ensures visited[i].name != visited[j].name
      {
        if Index(i) == Index(j) { IndexIsInjective(i, j); }
      }
    }
  }

  // ---------------------------------------------------------- the exact condition

  predicate Present(params: seq<Param>, name: Text) {
    exists i :: 0 <= i < |params| && params[i].name == name && !params[i].value.Missing()
  }

  lemma {:induction false} NamesCollected(params: seq<Param>, name: Text, page: Page)
    ensures name in Arrived(params) <==> Present(params, name)
    ensures Collected(params, page).Success? ==> (name in Collected(params, page).value <==> Present(params, name))
  {
    if params != [] {
      NamesCollected(params[1..], name, page);
    }
  }

  predicate AllKept(params: seq<Param>, page: Page) {
    forall i :: 0 <= i < |params| ==> Kept(params[i], page)
  }

  lemma SameUnderName(name: Text, v: Value, w: Value, a: map<Text, Value>, b: map<Text, Value>)
    requires name !in a && name !in b
    ensures map[name := v] + a == map[name := w] + b <==> v == w && a == b
  {
    var x, y := map[name := v] + a, map[name := w] + b;
    if x == y {
      assert x[name] == v && y[name] == w;
      assert x - {name} == a && y - {name} == b;
    }
  }

  /** What is collected are the values that were sent exactly when every parameter is kept. */
  lemma {:induction false} CollectedIsSent(params: seq<Param>, page: Page)
    requires AllTravel(params)
    ensures Collected(params, page) == Success(Arrived(params)) <==> AllKept(params, page)
    decreases |params|
  {
    if params != [] {
      var p := params[0];
      CollectedIsSent(params[1..], page);
      if !p.value.Missing() {
        ValueComesBack(p, page);
        NamesCollected(params[1..], p.name, page);
        var read := ReadValue(ValueText(p.value));
        if read.Success? && Collected(params[1..], page).Success? {
          SameUnderName(p.name, Entered(p.name, read.value, page), Received(p.value), Collected(params[1..], page).value, Arrived(params[1..]));
        }
      }
    }
  }

  predicate AllMissing(params: seq<Param>) {
    forall i :: 0 <= i < |params| ==> params[i].value.Missing()
  }

  /** When the parameters come back: no parameter is named `length`, unless it is undefined, no present
      one has an inherited name, and no plain text carries the prefix; or there is nothing to come back. */
  predicate ComesBack(params: seq<Param>, page: Page) {
    (Find(params, LENGTH).Undefined? && AllKept(params, page)) || AllMissing(params)
  }

  lemma {:induction false} FindIsPresent(params: seq<Param>, name: Text)
    ensures !Find(params, name).Missing() ==> Present(params, name)
  {
    if params != [] && params[0].name != name {
      FindIsPresent(params[1..], name);
    }
  }

  lemma {:induction false} NothingSent(params: seq<Param>, page: Page)
    requires AllMissing(params)
    ensures Arrived(params) == map[] && Collected(params, page) == Success(map[])
  {
    if params != [] {
      assert forall i :: 0 <= i < |params[1..]| ==> params[1..][i] == params[i + 1];
      NothingSent(params[1..], page);
    }
  }

  /** With a length, what is collected misses `length` itself or, if that is null, everything. */
  lemma LengthLosesNames(params: seq<Param>, rounds: ParamValue -> nat, page: Page)
    requires AllTravel(params) && !Find(params, LENGTH).Undefined?
    ensures Collected(Visited(params, rounds), page) == Success(Arrived(params)) <==> AllMissing(params)
  {
    var visited := Visited(params, rounds);
    if AllMissing(params) {
      NothingSent(params, page);
      forall i | 0 <= i < |visited|
        ensures visited[i].value.Missing()
      {
        if !Find(params, Index(i)).Missing() { FindIsPresent(params, Index(i)); }
      }
      NothingSent(visited, page);
    } else if Find(params, LENGTH).Null? {
      var i :| 0 <= i < |params| && !params[i].value.Missing();
      NamesCollected(params, params[i].name, page);
      assert visited == [];
    } else {
      FindIsPresent(params, LENGTH);
      NamesCollected(params, LENGTH, page);
      NamesCollected(visited, LENGTH, page);
      forall i | 0 <= i < |visited|
        ensures visited[i].name != LENGTH
      {
        IndexIsUnreserved(i);
      }
    }
  }

  /** Parsing an appended link gives back every present parameter, and the placeholder, exactly when
      no parameter is named `length` or like an inherited member and no plain text carries the prefix. */
  lemma ParseUndoesAppend(url: Text, params: seq<Param>, rounds: ParamValue -> nat, enc: Text -> Text, page: Page)
    requires Codec(enc, page) && AllTravel(params)
    requires QUESTION !in url && HASH !in url
    ensures Parse(Append(url, params, rounds, enc), page) == Success(GIVEN + Arrived(params)) <==> ComesBack(params, page)
  {
    var visited := Visited(params, rounds);
    VisitedTravel(params, rounds);
    ParseOfAppend(url, params, rounds, enc, page);
    UnderGiven(visited, params, page);
    if Find(params, LENGTH).Undefined? {
      CollectedIsSent(params, page);
      if AllMissing(params) { NothingSent(params, page); }
    } else {
      LengthLosesNames(params, rounds, page);
    }
  }

  lemma UnderGiven(visited: seq<Param>, params: seq<Param>, page: Page)
    requires AllTravel(visited) && AllTravel(params)
    ensures Under(GIVEN, Collected(visited, page)) == Success(GIVEN + Arrived(params)) <==> Collected(visited, page) == Success(Arrived(params))
  {
    if Collected(visited, page).Success? {
      NamesCollected(visited, PLACEHOLDER, page);
      NamesCollected(params, PLACEHOLDER, page);
      SameUnderName(PLACEHOLDER, GIVEN[PLACEHOLDER], GIVEN[PLACEHOLDER], Collected(visited, page).value, Arrived(params));
    }
  }

  /** With a parameter named `length`, `append` adds no other name: `a` is lost. */
  lemma LengthHidesOthers(url: Text, rounds: ParamValue -> nat, enc: Text -> Text)
    ensures var params := [Param(LENGTH, Plain([0x35])), Param([0x61], Plain([0x78]))];
            Append(url, params, rounds, enc) == Append(url, [], rounds, enc)
  {
    var params := [Param(LENGTH, Plain([0x35])), Param([0x61], Plain([0x78]))];
    var visited := Visited(params, rounds);
    assert params[1..] == [Param([0x61], Plain([0x78]))];
    forall i | 0 <= i < |visited|
      ensures visited[i].value.Missing()
    {
      IndexIsUnreserved(i);
      assert Index(i)[0] != 0x61;
      assert Find(params[1..], Index(i)).Undefined?;
    }
    NoPieces(visited, enc);
    assert Visited([], rounds) == [];
  }

  /** `constructor` */
  const CONSTRUCTOR: Text := [0x63, 0x6F, 0x6E, 0x73, 0x74, 0x72, 0x75, 0x63, 0x74, 0x6F, 0x72]

  /** A parameter named `constructor`, which every object inherits, comes back in an array after the
      inherited function. */
  lemma InheritedNameIsWrapped(url: Text, rounds: ParamValue -> nat, enc: Text -> Text, page: Page)
    requires Codec(enc, page) && page.inherited(CONSTRUCTOR) && QUESTION !in url && HASH !in url
    ensures var params := [Param(CONSTRUCTOR, Plain([0x78]))];
            Parse(Append(url, params, rounds, enc), page)
            == Success(GIVEN + map[CONSTRUCTOR := Arr([Value.Undefined, Str([0x78])])])
  {
    var p := Param(CONSTRUCTOR, Plain([0x78]));
    ConstructorIsVisited(p, rounds);
    ParseOfAppend(url, [p], rounds, enc, page);
    OneCollected(p, page);
  }

  lemma ConstructorIsVisited(p: Param, rounds: ParamValue -> nat)
    requires p == Param(CONSTRUCTOR, Plain([0x78]))
    ensures Visited([p], rounds) == [p] && AllTravel([p])
  {
    assert CONSTRUCTOR[0] != LENGTH[0] && CONSTRUCTOR[0] != PLACEHOLDER[0];
    assert Find([p], LENGTH) == Find([p][1..], LENGTH) == ParamValue.Undefined;
    assert Travels(p);
  }

  lemma OneCollected(p: Param, page: Page)
    requires p.value.Plain? && !IsJson(p.value.text)
    ensures Collected([p], page) == Success(map[p.name := Entered(p.name, Str(p.value.text), page)])
  {
    var v := Entered(p.name, Str(p.value.text), page);
    assert [p][1..] == [] && Collected([], page) == Success(map[]);
    assert map[p.name := v] + map[] == map[p.name := v];
  }

  lemma {:induction false} NoPieces(params: seq<Param>, enc: Text -> Text)
    requires AllMissing(params)
    ensures Pieces(params, enc) == []
  {
    if params != [] {
      assert forall i :: 0 <= i < |params[1..]| ==> params[1..][i] == params[i + 1];
      NoPieces(params[1..], enc);
    }
  }

  lemma QueryOfAppend(url: Text, params: seq<Param>, rounds: ParamValue -> nat, enc: Text -> Text, page: Page)
    requires Codec(enc, page) && AllTravel(Visited(params, rounds))
    requires QUESTION !in url && HASH !in url
    ensures Query(Append(url, params, rounds, enc))
         == Some(PLACEHOLDER + [EQUALS] + PLACEHOLDER_VALUE + Build(params, rounds, enc))
  {
    var first := PLACEHOLDER + [EQUALS] + PLACEHOLDER_VALUE;
    PiecesHaveNoMarks(Visited(params, rounds), enc, page);
    RegroupUrl(url, [QUESTION], first, Build(params, rounds, enc));
    QueryOf(url, first + Build(params, rounds, enc));
  }

  lemma RegroupUrl(a: Text, b: Text, c: Text, d: Text)
    ensures (a + (b + c)) + d == (a + b) + (c + d)
  {
  }

  lemma QueryOf(url: Text, query: Text)
    requires QUESTION !in url && HASH !in url && QUESTION !in query && HASH !in query
    ensures Query(url + [QUESTION] + query) == Some(query)
  {
    NoHash(url, query);
    SplitWhole(url + [QUESTION] + query, HASH);
    SplitAt(url, QUESTION, query);
    SplitWhole(query, QUESTION);
  }

  lemma NoHash(url: Text, query: Text)
    requires HASH !in url && HASH !in query
    ensures HASH !in url + [QUESTION] + query
  {
  }

  lemma PlaceholderComesBack(enc: Text -> Text, page: Page)
    requires Codec(enc, page)
    ensures ParseSegment(PLACEHOLDER + [EQUALS] + PLACEHOLDER_VALUE, map[], page)
         == Success(map[PLACEHOLDER := Str(PLACEHOLDER_VALUE)])
  {
    SplitAt(PLACEHOLDER, EQUALS, PLACEHOLDER_VALUE);
    SplitWhole(PLACEHOLDER_VALUE, EQUALS);
    assert Unreserved(PLACEHOLDER_VALUE);
    assert page.dec(enc(PLACEHOLDER_VALUE)) == PLACEHOLDER_VALUE;
  }
}
