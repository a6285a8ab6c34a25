/** Repeated names in a link, and appending to a link that has a query. */
module ParameterRepeats {
  import opened Wrappers
  import opened JsonText
  import opened JsonPrinter
  import opened ParameterHelper

  // -------------------------------------------------------------- repeated names

  /** What a name that is repeated with these values stands for: nulls in front are forgotten, a single value
      stands for itself, more are put into an array, into the first one if that is an array. */
  function Gathered(vs: seq<Value>): Value
    requires vs != []
  {
    if |vs| == 1 then vs[0]
    else if vs[0] == Value.Null then Gathered(vs[1..])
    else Arr((if vs[0].Arr? then vs[0].elems else [vs[0]]) + vs[1..])
  }

  /** The segments of one name with these texts. */
  function Repeated(name: Text, texts: seq<Text>, enc: Text -> Text): seq<Text> {
    if texts == [] then [] else [name + [EQUALS] + enc(texts[0])] + Repeated(name, texts[1..], enc)
  }

  predicate ReadAs(texts: seq<Text>, vs: seq<Value>) {
    |texts| == |vs| && forall i :: 0 <= i < |texts| ==> Clean(texts[i]) && ReadValue(texts[i]) == Success(vs[i])
  }

  lemma ReadRepeat(name: Text, text: Text, v: Value, values: map<Text, Value>, enc: Text -> Text, page: Page)
    requires Codec(enc, page) && Clean(name) && Clean(text) && ReadValue(text) == Success(v)
    ensures ParseSegment(name + [EQUALS] + enc(text), values, page) == Success(Put(values, name, v, page))
  {
    SplitAt(name, EQUALS, enc(text));
    SplitWhole(enc(text), EQUALS);
  }

  /** The values of one name, entered one after another. */
  function PutAll(values: map<Text, Value>, name: Text, vs: seq<Value>, page: Page): map<Text, Value>
    decreases |vs|
  {
    if vs == [] then values else PutAll(Put(values, name, vs[0], page), name, vs[1..], page)
  }

  lemma {:induction false} SegmentsPutAll(name: Text, texts: seq<Text>, vs: seq<Value>, values: map<Text, Value>, enc: Text -> Text, page: Page)
    requires Codec(enc, page) && Clean(name) && ReadAs(texts, vs)
    ensures ParseSegments(Repeated(name, texts, enc), values, page) == Success(PutAll(values, name, vs, page))
    decreases |texts|
  {
    if texts != [] {
      ReadRepeat(name, texts[0], vs[0], values, enc, page);
      SegmentsPutAll(name, texts[1..], vs[1..], Put(values, name, vs[0], page), enc, page);
    }
  }

  lemma GatheredNull(vs: seq<Value>)
    requires vs != []
    ensures Gathered([Value.Null] + vs) == Gathered(vs)
  {
    assert ([Value.Null] + vs)[1..] == vs;
  }

  /** An array that takes in the values after it. */
  lemma GatheredInto(elems: seq<Value>, vs: seq<Value>)
    ensures Gathered([Arr(elems)] + vs) == Arr(elems + vs)
  {
    if vs == [] {
      assert [Arr(elems)] + vs == [Arr(elems)] && elems + vs == elems;
    } else {
      assert ([Arr(elems)] + vs)[1..] == vs;
    }
  }

  lemma GatheredSingle(first: Value, vs: seq<Value>)
    requires first != Value.Null && !first.Arr? && vs != []
    ensures Gathered([first] + vs) == Arr([first] + vs)
  {
    assert ([first] + vs)[1..] == vs;
  }

  lemma GatheredNext(first: Value, vs: seq<Value>)
    requires vs != []
    ensures Gathered([first] + vs)
         == if first == Value.Null then Gathered(vs)
            else Gathered([Arr((if first.Arr? then first.elems else [first]) + [vs[0]])] + vs[1..])
  {
    if first == Value.Null {
      GatheredNull(vs);
    } else {
      var elems := if first.Arr? then first.elems else [first];
      if first.Arr? { GatheredInto(elems, vs); } else { GatheredSingle(first, vs); }
      GatheredInto(elems + [vs[0]], vs[1..]);
      TakeIn(elems, vs);
    }
  }

  lemma TakeIn(elems: seq<Value>, vs: seq<Value>)
    requires vs != []
    ensures elems + [vs[0]] + vs[1..] == elems + vs
  {
  }

  lemma OneMore(values: map<Text, Value>, name: Text, v: Value, page: Page)
    requires name in values
    ensures var had := values[name];
            Put(values, name, v, page)
            == values[name := if had == Value.Null then v else Arr((if had.Arr? then had.elems else [had]) + [v])]
  {
    if !values[name].Arr? { assert [values[name]] + [v] == [values[name], v]; }
  }

  /** Further values of a name that has one. */
  lemma {:induction false} PutAllGathers(values: map<Text, Value>, name: Text, vs: seq<Value>, page: Page)
    requires name in values
    ensures PutAll(values, name, vs, page) == values[name := Gathered([values[name]] + vs)]
    decreases |vs|
  {
    var first := values[name];
    if vs == [] {
      assert [first] + vs == [first];
    } else {
      var next := Put(values, name, vs[0], page);
      OneMore(values, name, vs[0], page);
      PutAllGathers(next, name, vs[1..], page);
      GatheredNext(first, vs);
      OnlyLast(values, name, next[name], Gathered([next[name]] + vs[1..]));
      assert vs == [vs[0]] + vs[1..];
    }
  }

  lemma OnlyLast(values: map<Text, Value>, name: Text, a: Value, b: Value)
    ensures values[name := a][name := b] == values[name := b]
  {
  }

  /** A name that stands in a link several times gets all its values, in order. */
  lemma RepeatedNameGathers(name: Text, texts: seq<Text>, vs: seq<Value>, values: map<Text, Value>, enc: Text -> Text, page: Page)
    requires Codec(enc, page) && Clean(name) && !page.inherited(name) && name !in values
    requires texts != [] && ReadAs(texts, vs)
    ensures ParseSegments(Repeated(name, texts, enc), values, page) == Success(values[name := Gathered(vs)])
  {
    SegmentsPutAll(name, texts, vs, values, enc, page);
    FirstGathers(name, vs, values, page);
  }

  lemma FirstGathers(name: Text, vs: seq<Value>, values: map<Text, Value>, page: Page)
    requires !page.inherited(name) && name !in values && vs != []
    ensures PutAll(values, name, vs, page) == values[name := Gathered(vs)]
  {
    PutAllGathers(values[name := vs[0]], name, vs[1..], page);
    assert [vs[0]] + vs[1..] == vs;
  }

  // ------------------------------------------------- a link that has a query

  lemma {:induction false} SplitBoth(a: Text, separator: Unit, b: Text)
    ensures Split(a + [separator] + b, separator) == Split(a, separator) + Split(b, separator)
  {
    var s := a + [separator] + b;
    if a == [] {
      assert s[1..] == b;
    } else {
      assert s[1..] == a[1..] + [separator] + b;
      SplitBoth(a[1..], separator, b);
    }
  }

  /** The query and what is appended to it are cut apart. */
  lemma {:induction false} SplitQuery(query: Text, params: seq<Param>, enc: Text -> Text)
    requires NoAmpersands(params, enc)
    ensures Split(query + Pieces(params, enc), AMPERSAND) == Split(query, AMPERSAND) + Segments(params, enc)
    decreases |params|
  {
    if params == [] {
      assert query + [] == query;
    } else {
      var rest := Pieces(params[1..], enc);
      if params[0].value.Missing() {
        SplitQuery(query, params[1..], enc);
        assert Pieces(params, enc) == rest && Segments(params, enc) == Segments(params[1..], enc);
      } else {
        var segment := Segment(params[0], enc);
        SplitSegments(segment, params[1..], enc);
        SplitBoth(query, AMPERSAND, segment + rest);
        Regroup(query, [AMPERSAND], segment, rest);
      }
    }
  }

  lemma {:induction false} ParseInTurn(a: seq<Text>, b: seq<Text>, values: map<Text, Value>, page: Page)
    ensures var first := ParseSegments(a, values, page);
            ParseSegments(a + b, values, page) == if first.Failure? then first else ParseSegments(b, first.value, page)
    decreases |a|
  {
    if a == [] {
      assert a + b == b;
    } else {
      var next := ParseSegment(a[0], values, page);
      assert (a + b)[1..] == a[1..] + b;
      if next.Success? {
        ParseInTurn(a[1..], b, next.value, page);
      }
    }
  }

  lemma AppendedQuery(base: Text, query: Text, params: seq<Param>, rounds: ParamValue -> nat, enc: Text -> Text, page: Page)
    requires Codec(enc, page) && AllTravel(Visited(params, rounds))
    requires QUESTION !in base && HASH !in base && QUESTION !in query && HASH !in query
    ensures Query(Append(base + [QUESTION] + query, params, rounds, enc)) == Some(query + Pieces(Visited(params, rounds), enc))
  {
    var added := Pieces(Visited(params, rounds), enc);
    PiecesHaveNoMarks(Visited(params, rounds), enc, page);
    Associate(base + [QUESTION], query, added);
    QueryOf(base, query + added);
  }

  lemma AppendedSegments(query: Text, params: seq<Param>, enc: Text -> Text, page: Page)
    requires Codec(enc, page) && AllTravel(params)
    ensures Split(query + Pieces(params, enc), AMPERSAND) == Split(query, AMPERSAND) + Segments(params, enc)
  {
    forall i | 0 <= i < |params|
      ensures AMPERSAND !in Segment(params[i], enc)
    {
      SegmentIsPlain(params[i], enc, page);
    }
    SplitQuery(query, params, enc);
  }

  /** Appending to a link that has a query adds to what it says, and no placeholder. */
  lemma AppendToQuery(base: Text, query: Text, params: seq<Param>, rounds: ParamValue -> nat, enc: Text -> Text, page: Page)
    requires Codec(enc, page) && AllTravel(Visited(params, rounds))
    requires QUESTION !in base && HASH !in base && QUESTION !in query && HASH !in query
    requires var before := Parse(base + [QUESTION] + query, page);
             before.Success? && NamesAreNew(Visited(params, rounds), before.value)
    ensures Parse(Append(base + [QUESTION] + query, params, rounds, enc), page)
         == Under(Parse(base + [QUESTION] + query, page).value, Collected(Visited(params, rounds), page))
  {
    var visited := Visited(params, rounds);
    QueryOf(base, query);
    AppendedQuery(base, query, params, rounds, enc, page);
    AppendedSegments(query, visited, enc, page);
    ParseInTurn(Split(query, AMPERSAND), Segments(visited, enc), map[], page);
    SegmentsComeBack(visited, Parse(base + [QUESTION] + query, page).value, enc, page);
  }

  /** What a parameter makes of a link without a query, spelled out: `?_null_=0&`, the name, `=` and the
      value, a structure behind `__json__:`. */
  lemma AppendOne(url: Text, p: Param, rounds: ParamValue -> nat, enc: Text -> Text)
    requires 0x3F !in url && !p.value.Missing() && p.name != [0x6C, 0x65, 0x6E, 0x67, 0x74, 0x68]
    ensures Append(url, [p], rounds, enc)
         == url + [0x3F, 0x5F, 0x6E, 0x75, 0x6C, 0x6C, 0x5F, 0x3D, 0x30] + [0x26] + enc(p.name) + [0x3D]
            + enc(match p.value
                  case Structure(value) => [0x5F, 0x5F, 0x6A, 0x73, 0x6F, 0x6E, 0x5F, 0x5F, 0x3A] + OrNull(Print(value, [], []))
                  case Plain(text) => text
                  case _ => [])
  {
    assert [p][1..] == [];
    assert Find([p], LENGTH) == Find([p][1..], LENGTH) == ParamValue.Undefined;
    assert Pieces([p], enc) == Piece(p, enc) + Pieces([], enc) == Piece(p, enc);
    var v := enc(ValueText(p.value));
    assert PLACEHOLDER + [EQUALS] + PLACEHOLDER_VALUE == [0x5F, 0x6E, 0x75, 0x6C, 0x6C, 0x5F, 0x3D, 0x30];
    OneAppended(url, PLACEHOLDER + [EQUALS] + PLACEHOLDER_VALUE, enc(p.name), v);
  }

  lemma OneAppended(url: Text, first: Text, name: Text, v: Text)
    ensures (url + ([QUESTION] + first)) + ([AMPERSAND] + (name + [EQUALS] + v))
         == url + ([QUESTION] + first) + [AMPERSAND] + name + [EQUALS] + v
  {
  }

  /** A link without a query says nothing; one with a fragment says what stands before it. */
  lemma FragmentIsIgnored(link: Text, fragment: Text, page: Page)
    requires HASH !in link
    ensures Parse(link + [0x23] + fragment, page) == Parse(link, page)
    ensures QUESTION !in link ==> Parse(link, page) == Success(map[])
  {
    SplitAt(link, HASH, fragment);
    SplitWhole(link, HASH);
    if QUESTION !in link { SplitWhole(link, QUESTION); }
  }

  /** A segment without an equals sign is skipped, and what follows a second one is ignored. */
  lemma JunkIsIgnored(name: Text, value: Text, junk: Text, values: map<Text, Value>, page: Page)
    requires EQUALS !in name && EQUALS !in value
    ensures ParseSegment(name, values, page) == Success(values)
    ensures ParseSegment(name + [EQUALS] + value + [EQUALS] + junk, values, page) == ParseSegment(name + [EQUALS] + value, values, page)
  {
    SplitWhole(name, EQUALS);
    SplitWhole(value, EQUALS);
    SplitAt(name, EQUALS, value);
    SplitAt(value, EQUALS, junk);
    SplitAt(name, EQUALS, value + [EQUALS] + junk);
    assert name + [EQUALS] + (value + [EQUALS] + junk) == name + [EQUALS] + value + [EQUALS] + junk;
  }

  /** Of several question marks the first two bound the query. */
  lemma SecondQueryIsIgnored(base: Text, query: Text, junk: Text)
    requires QUESTION !in base && QUESTION !in query && HASH !in base && HASH !in query && HASH !in junk
    ensures Query(base + [QUESTION] + query + [QUESTION] + junk) == Some(query)
  {
    var link := base + [QUESTION] + query + [QUESTION] + junk;
    assert HASH !in link;
    SplitWhole(link, HASH);
    SplitAt(query, QUESTION, junk);
    SplitAt(base, QUESTION, query + [QUESTION] + junk);
    assert base + [QUESTION] + (query + [QUESTION] + junk) == link;
  }
}
