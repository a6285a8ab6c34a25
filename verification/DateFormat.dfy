/** `DateFormat` of gt_base.js: formatting by a fixed sequence of replacements and the longest-match
    cut of a pattern, and how the two agree. Every name of a field repeats one letter, and longer names
    are replaced before shorter ones. */
module DateFormat {
  import opened Strings
  import opened Wrappers

  /** The fields, named after their patterns; the digit is the length of the pattern. */
  datatype Field =
    | Year4 | Year2 | MonthName | Month2 | Month1 | Day2 | Day1
    | Hour2 | Hour1 | Minute2 | Minute1 | Second2 | Second1

  /** `patternNames`, in the order in which `format` replaces them. */
  const FIELDS: seq<Field> :=
    [Year4, Year2, MonthName, Month2, Month1, Day2, Day1, Hour2, Hour1, Minute2, Minute1, Second2, Second1]

  function Letter(f: Field): char {
    match f
    case Year4 | Year2 => 'y'
    case MonthName | Month2 | Month1 => 'M'
    case Day2 | Day1 => 'd'
    case Hour2 | Hour1 => 'H'
    case Minute2 | Minute1 => 'm'
    case Second2 | Second1 => 's'
  }

  function Length(f: Field): nat {
    match f
    case Year4 => 4
    case MonthName => 3
    case Year2 | Month2 | Day2 | Hour2 | Minute2 | Second2 => 2
    case Month1 | Day1 | Hour1 | Minute1 | Second1 => 1
  }

  /** "yyyy", "yy", "MMM" and so on: every name repeats one letter. */
  function Name(f: Field): (name: string)
    ensures |name| == Length(f)
  {
    seq(Length(f), _ => Letter(f))
  }

  /** The place of a field in `patternNames`. */
  function Rank(f: Field): nat {
    match f
    case Year4 => 0
    case Year2 => 1
    case MonthName => 2
    case Month2 => 3
    case Month1 => 4
    case Day2 => 5
    case Day1 => 6
    case Hour2 => 7
    case Hour1 => 8
    case Minute2 => 9
    case Minute1 => 10
    case Second2 => 11
    case Second1 => 12
  }

  /** A date as its getters show it; `month` counts from 0. */
  datatype Date = Date(year: nat, month: nat, day: nat, hour: nat, minute: nat, second: nat)

  predicate ValidDate(d: Date) {
    d.month < 12 && 1 <= d.day <= 31 && d.hour < 24 && d.minute < 60 && d.second < 60
  }

  const MONTHS: seq<string> :=
    ["一月", "二月", "三月", "四月", "五月", "六月", "七月", "八月", "九月", "十月", "十一月", "十二月"]

  function Pad2(n: nat): string {
    if n < 10 then "0" + Decimal(n) else Decimal(n)
  }

  /** `this.patterns[name]` after the date has been noted. */
  function Shown(f: Field, d: Date): string
    requires ValidDate(d)
  {
    match f
    case Year4 => Decimal(d.year)
    case Year2 => Pad2(d.year % 100)
    case MonthName => MONTHS[d.month]
    case Month2 => Pad2(d.month + 1)
    case Month1 => Decimal(d.month + 1)
    case Day2 => Pad2(d.day)
    case Day1 => Decimal(d.day)
    case Hour2 => Pad2(d.hour)
    case Hour1 => Decimal(d.hour)
    case Minute2 => Pad2(d.minute)
    case Minute1 => Decimal(d.minute)
    case Second2 => Pad2(d.second)
    case Second1 => Decimal(d.second)
  }

  // ----------------------------------------------------------------- formatting

  /** The replacements from place `k` of `patternNames` on. */
  function ReplaceFrom(s: string, d: Date, k: nat): string
    requires ValidDate(d) && k <= |FIELDS|
    decreases |FIELDS| - k
  {
    if k == |FIELDS| then s
    else ReplaceFrom(Replace(s, Name(FIELDS[k]), Shown(FIELDS[k], d)), d, k + 1)
  }

  function WithoutQuotes(s: string): string {
    if s == "" then ""
    else (if s[0] == '\'' then "" else [s[0]]) + WithoutQuotes(s[1..])
  }

  /** `format`; `strip` is the flag replaceSingleQuotation. */
  function Format(d: Date, pattern: string, strip: bool): string
    requires ValidDate(d)
  {
    var s := ReplaceFrom(pattern, d, 0);
    if strip then WithoutQuotes(s) else s
  }

  lemma {:induction false} RemoveOneQuote(s: string)
    requires '\'' in s
    ensures WithoutQuotes(Replace(s, "'", "")) == WithoutQuotes(s)
    ensures |Replace(s, "'", "")| < |s|
  {
    if s[0] == '\'' {
      assert "'" <= s && "" + s[1..] == s[1..];
    } else {
      assert s == [s[0]] + s[1..];
      assert !("'" <= s);
      RemoveOneQuote(s[1..]);
    }
  }

  lemma {:induction false} NoQuoteLeft(s: string)
    requires '\'' !in s
    ensures WithoutQuotes(s) == s
  {
    if s != "" {
      NoQuoteLeft(s[1..]);
    }
  }

  /** No quotation mark is left, and nothing else is gone. */
  lemma {:induction false} QuotesGo(s: string)
    ensures '\'' !in WithoutQuotes(s)
    ensures forall c :: c != '\'' ==> multiset(WithoutQuotes(s))[c] == multiset(s)[c]
  {
    if s != "" {
      assert s == [s[0]] + s[1..];
      QuotesGo(s[1..]);
    }
  }

  /** The body of `format`: the loop over `patternNames`, then the loop that removes quotes. */
  method FormatDate(d: Date, pattern: string, strip: bool) returns (formatted: string)
    requires ValidDate(d)
    ensures formatted == Format(d, pattern, strip)
  {
    formatted := pattern;
    for k := 0 to |FIELDS|
      invariant ReplaceFrom(formatted, d, k) == ReplaceFrom(pattern, d, 0)
    {
      formatted := Replace(formatted, Name(FIELDS[k]), Shown(FIELDS[k], d));
    }
    while strip && '\'' in formatted
      invariant if strip then WithoutQuotes(formatted) == Format(d, pattern, strip)
                else formatted == Format(d, pattern, strip)
      decreases |formatted|
    {
      RemoveOneQuote(formatted);
      formatted := Replace(formatted, "'", "");
    }
    if strip { NoQuoteLeft(formatted); }
  }

  // ------------------------------------------------------- cutting the pattern

  datatype Piece = Of(field: Field) | Other(text: string)

  /** `this.patterns[p]`, searched from place `k` on. */
  function FieldFrom(p: string, k: nat): Option<Field>
    requires k <= |FIELDS|
    decreases |FIELDS| - k
  {
    if k == |FIELDS| then None
    else if Name(FIELDS[k]) == p then Some(FIELDS[k])
    else FieldFrom(p, k + 1)
  }

  function FieldNamed(p: string): Option<Field> {
    FieldFrom(p, 0)
  }

  predicate IsPartMatched(p: string) {
    FieldNamed(p).Some? || exists i :: 0 <= i < |FIELDS| && p < Name(FIELDS[i])
  }

  /** The cut that `parse` makes of the rest of a pattern, `pending` being the piece begun. */
  function Cut(rest: string, pending: string): seq<Piece> {
    if rest == "" then []
    else
      var p := pending + [rest[0]];
      if 1 < |rest| && IsPartMatched(p + [rest[1]]) then Cut(rest[1..], p)
      else [PieceOf(p)] + Cut(rest[1..], "")
  }

  function PieceOf(p: string): Piece {
    match FieldNamed(p)
    case Some(f) => Of(f)
    case None => Other(p)
  }

  // -------------------------------------------------- patterns made of pieces

  predicate IsLetter(c: char) {
    'a' <= c <= 'z' || 'A' <= c <= 'Z'
  }

  /** Fields at most once, fields of one letter never adjacent, all else single non-letters. */
  predicate Plain(ps: seq<Piece>) {
    && (forall i :: 0 <= i < |ps| && ps[i].Other? ==> |ps[i].text| == 1 && !IsLetter(ps[i].text[0]))
    && (forall i, j :: 0 <= i < j < |ps| && ps[i].Of? ==> ps[i] != ps[j])
    && (forall i :: 0 <= i < |ps| - 1 && ps[i].Of? && ps[i + 1].Of? ==>
          Letter(ps[i].field) != Letter(ps[i + 1].field))
  }

  /** The text in which the fields of rank below `k` are already replaced. */
  function Partial(ps: seq<Piece>, d: Date, k: nat): string
    requires ValidDate(d)
  {
    if ps == [] then "" else PartialPiece(ps[0], d, k) + Partial(ps[1..], d, k)
  }

  function PartialPiece(p: Piece, d: Date, k: nat): string
    requires ValidDate(d)
  {
    match p
    case Of(f) => if Rank(f) < k then Shown(f, d) else Name(f)
    case Other(text) => text
  }

  function Unparse(ps: seq<Piece>): string {
    if ps == [] then ""
    else (match ps[0] case Of(f) => Name(f) case Other(text) => text) + Unparse(ps[1..])
  }

  /** Rendering piece by piece. */
  function Render(ps: seq<Piece>, d: Date, strip: bool): string
    requires ValidDate(d)
  {
    if ps == [] then "" else RenderPiece(ps[0], d, strip) + Render(ps[1..], d, strip)
  }

  function RenderPiece(p: Piece, d: Date, strip: bool): string
    requires ValidDate(d)
  {
    match p
    case Of(f) => Shown(f, d)
    case Other(text) => if strip then WithoutQuotes(text) else text
  }

  // ------------------------------------------------ replacing equals rendering

  lemma NameIsOneLetter(f: Field)
    ensures Name(f) != "" && Name(f)[0] == Letter(f) && IsLetter(Letter(f))
    ensures forall i :: 0 <= i < |Name(f)| ==> Name(f)[i] == Letter(f)
  {
  }

  lemma FieldsByRank(f: Field)
    ensures FIELDS[Rank(f)] == f
  {
  }

  /** Of two fields of one letter the longer one comes first. */
  lemma LongerFirst(f: Field, g: Field)
    requires Letter(f) == Letter(g) && f != g
    ensures Rank(f) < Rank(g) <==> Length(g) < Length(f)
    ensures Length(f) != Length(g)
  {
  }

  predicate NoLetters(s: string) {
    s != "" && forall i :: 0 <= i < |s| ==> !IsLetter(s[i]) && s[i] != '\''
  }

  lemma ShownHasNoLetters(f: Field, d: Date)
    requires ValidDate(d)
    ensures NoLetters(Shown(f, d))
  {
  }

  /** A piece that is not the field itself holds its letter only as a shorter field. */
  lemma {:induction false} PassShort(x: string, y: string, pattern: string, value: string)
    requires |x| < |pattern| && (forall i :: 0 <= i < |x| ==> x[i] == pattern[0])
    requires forall i :: 0 <= i < |pattern| ==> pattern[i] == pattern[0]
    requires y == "" || y[0] != pattern[0]
    ensures Replace(x + y, pattern, value) == x + Replace(y, pattern, value)
  {
    if x == "" {
      assert x + y == y;
    } else {
      assert (x + y)[1..] == x[1..] + y && (x + y)[0] == x[0];
      assert pattern[|x|] == pattern[0] && (x + y)[|x|..] == y;
      PassShort(x[1..], y, pattern, value);
    }
  }

  /** The text of the remaining pieces does not start with a letter whose run is still open. */
  lemma PartialStart(ps: seq<Piece>, d: Date, k: nat, letter: char)
    requires ValidDate(d) && Plain(ps) && IsLetter(letter)
    requires ps != [] && ps[0].Of? ==> Letter(ps[0].field) != letter
    ensures var s := Partial(ps, d, k); s == "" || s[0] != letter
  {
    if ps != [] && ps[0].Of? {
      ShownHasNoLetters(ps[0].field, d);
      NameIsOneLetter(ps[0].field);
    }
  }

  /** A field that does not occur is neither replaced nor counted. */
  lemma {:induction false} PartialOfAbsent(ps: seq<Piece>, d: Date, f: Field)
    requires ValidDate(d) && Of(f) !in ps
    ensures Partial(ps, d, Rank(f) + 1) == Partial(ps, d, Rank(f))
  {
    if ps != [] {
      PartialOfAbsent(ps[1..], d, f);
      if ps[0].Of? {
        FieldsByRank(f);
        FieldsByRank(ps[0].field);
      }
    }
  }

  lemma PassPiece(p: Piece, y: string, d: Date, f: Field)
    requires ValidDate(d) && p != Of(f)
    requires p.Other? ==> |p.text| == 1 && !IsLetter(p.text[0])
    requires p.Of? && Letter(p.field) == Letter(f) ==> y == "" || y[0] != Letter(f)
    ensures PartialPiece(p, d, Rank(f) + 1) == PartialPiece(p, d, Rank(f))
    ensures var x := PartialPiece(p, d, Rank(f));
            Replace(x + y, Name(f), Shown(f, d)) == x + Replace(y, Name(f), Shown(f, d))
  {
    var x := PartialPiece(p, d, Rank(f));
    NameIsOneLetter(f);
    if p.Of? {
      FieldsByRank(f);
      FieldsByRank(p.field);
      NameIsOneLetter(p.field);
      ShownHasNoLetters(p.field, d);
    }
    if p.Of? && Rank(f) <= Rank(p.field) && Letter(p.field) == Letter(f) {
      LongerFirst(f, p.field);
      PassShort(x, y, Name(f), Shown(f, d));
    } else {
      ReplaceAfter(x, y, Name(f), Shown(f, d));
    }
  }

  /** One of the thirteen replacements replaces exactly the piece of its field. */
  lemma {:induction false} ReplaceOneField(ps: seq<Piece>, d: Date, f: Field)
    requires ValidDate(d) && Plain(ps)
    ensures Replace(Partial(ps, d, Rank(f)), Name(f), Shown(f, d)) == Partial(ps, d, Rank(f) + 1)
  {
    NameIsOneLetter(f);
    if ps != [] {
      var y := Partial(ps[1..], d, Rank(f));
      if ps[0] == Of(f) {
        ReplaceHere(Name(f), y, Shown(f, d));
        assert Of(f) !in ps[1..];
        PartialOfAbsent(ps[1..], d, f);
      } else {
        if ps[0].Of? && Letter(ps[0].field) == Letter(f) {
          PartialStart(ps[1..], d, Rank(f), Letter(f));
        }
        PassPiece(ps[0], y, d, f);
        ReplaceOneField(ps[1..], d, f);
      }
    }
  }

  lemma RankOfPlace(k: nat)
    requires k < |FIELDS|
    ensures Rank(FIELDS[k]) == k
  {
  }

  lemma {:induction false} ReplaceAllFields(ps: seq<Piece>, d: Date, k: nat)
    requires ValidDate(d) && Plain(ps) && k <= |FIELDS|
    ensures ReplaceFrom(Partial(ps, d, k), d, k) == Partial(ps, d, |FIELDS|)
    decreases |FIELDS| - k
  {
    if k < |FIELDS| {
      RankOfPlace(k);
      ReplaceOneField(ps, d, FIELDS[k]);
      ReplaceAllFields(ps, d, k + 1);
    }
  }

  lemma {:induction false} PartialEnds(ps: seq<Piece>, d: Date)
    requires ValidDate(d)
    ensures Partial(ps, d, 0) == Unparse(ps)
    ensures Partial(ps, d, |FIELDS|) == Render(ps, d, false)
  {
    if ps != [] {
      PartialEnds(ps[1..], d);
    }
  }

  lemma {:induction false} WithoutQuotesAppend(a: string, b: string)
    ensures WithoutQuotes(a + b) == WithoutQuotes(a) + WithoutQuotes(b)
  {
    if a == "" {
      assert a + b == b;
    } else {
      assert (a + b)[1..] == a[1..] + b;
      WithoutQuotesAppend(a[1..], b);
    }
  }

  lemma {:induction false} RenderWithoutQuotes(ps: seq<Piece>, d: Date)
    requires ValidDate(d)
    ensures WithoutQuotes(Render(ps, d, false)) == Render(ps, d, true)
  {
    if ps != [] {
      WithoutQuotesAppend(RenderPiece(ps[0], d, false), Render(ps[1..], d, false));
      RenderWithoutQuotes(ps[1..], d);
      if ps[0].Of? {
        ShownHasNoLetters(ps[0].field, d);
        NoQuoteLeft(Shown(ps[0].field, d));
      }
    }
  }

  /** Thirteen first-occurrence replacements give what rendering the pieces gives. */
  lemma FormatIsRender(ps: seq<Piece>, d: Date, strip: bool)
    requires ValidDate(d) && Plain(ps)
    ensures Format(d, Unparse(ps), strip) == Render(ps, d, strip)
  {
    PartialEnds(ps, d);
    ReplaceAllFields(ps, d, 0);
    RenderWithoutQuotes(ps, d);
  }

  // ---------------------------------------------------- cutting undoes unparsing

  lemma DistinctNames(f: Field, g: Field)
    requires Name(f) == Name(g)
    ensures f == g
  {
    assert Name(f)[0] == Name(g)[0];
    assert Letter(f) == Letter(g) && Length(f) == Length(g);
  }

  lemma {:induction false} FieldFromFinds(f: Field, k: nat)
    requires k <= Rank(f)
    ensures FieldFrom(Name(f), k) == Some(f)
    decreases Rank(f) - k
  {
    FieldsByRank(f);
    if Name(FIELDS[k]) == Name(f) {
      DistinctNames(FIELDS[k], f);
    } else {
      FieldFromFinds(f, k + 1);
    }
  }

  lemma {:induction false} FieldFromIsName(p: string, k: nat)
    requires k <= |FIELDS|
    ensures FieldFrom(p, k).Some? ==> p == Name(FieldFrom(p, k).value)
    decreases |FIELDS| - k
  {
    if k < |FIELDS| {
      FieldFromIsName(p, k + 1);
    }
  }

  /** The start of a name is a part match; with a foreign character after it, it is none. */
  lemma PartMatches(f: Field, k: nat)
    requires 0 < k <= |Name(f)|
    ensures IsPartMatched(Name(f)[..k])
    ensures FieldNamed(Name(f)) == Some(f)
  {
    FieldsByRank(f);
    FieldFromFinds(f, 0);
    if k == |Name(f)| {
      assert Name(f)[..k] == Name(f);
    } else {
      assert Name(f)[..k] < Name(FIELDS[Rank(f)]);
    }
  }

  lemma NoPartMatch(p: string, c: char)
    requires p != "" && p[0] != c
    ensures !IsPartMatched(p + [c])
  {
    var q := p + [c];
    assert q[0] == p[0] && q[|p|] == c;
    forall f: Field
      ensures !(q <= Name(f))
    {
      NameIsOneLetter(f);
    }
    FieldFromIsName(q, 0);
  }

  lemma NoPartMatchAtOther(c: char, e: char)
    requires !IsLetter(c)
    ensures !IsPartMatched([c] + [e]) && FieldNamed([c]) == None
  {
    forall f: Field
      ensures !([c] <= Name(f)) && !([c] + [e] <= Name(f))
    {
      NameIsOneLetter(f);
      assert Name(f)[0] != c;
    }
    FieldFromIsName([c], 0);
    FieldFromIsName([c] + [e], 0);
  }

  /** The last letter of a field closes the piece. */
  lemma CutFieldEnd(f: Field, pending: string, last: string, tail: string)
    requires pending + last == Name(f) && |last| == 1 && (tail == "" || tail[0] != Letter(f))
    ensures Cut(last + tail, pending) == [Of(f)] + Cut(tail, "")
  {
    var rest := last + tail;
    assert pending + [rest[0]] == Name(f) && rest[1..] == tail;
    PartMatches(f, |Name(f)|);
    if 1 < |rest| {
      assert rest[1] == tail[0];
      NoPartMatch(Name(f), rest[1]);
    }
  }

  /** Any earlier letter leaves the piece pending. */
  lemma CutFieldStep(f: Field, k: nat, tail: string)
    requires k + 1 < |Name(f)|
    ensures Cut(Name(f)[k..] + tail, Name(f)[..k]) == Cut(Name(f)[k + 1..] + tail, Name(f)[..k + 1])
  {
    var name := Name(f);
    PartMatches(f, k + 2);
    SplitBefore(name, k);
    SplitAfter(name, k, tail);
    CutGoesOn(name[..k], name[k], name[k + 1], name[k + 2..] + tail);
  }

  lemma SplitBefore(s: string, k: nat)
    requires k + 1 < |s|
    ensures s[..k] + [s[k]] == s[..k + 1] && s[..k] + [s[k], s[k + 1]] == s[..k + 2]
  {
  }

  lemma SplitAfter(s: string, k: nat, tail: string)
    requires k + 1 < |s|
    ensures [s[k], s[k + 1]] + (s[k + 2..] + tail) == s[k..] + tail
    ensures [s[k + 1]] + (s[k + 2..] + tail) == s[k + 1..] + tail
  {
  }

  lemma CutGoesOn(pending: string, a: char, b: char, rest: string)
    requires IsPartMatched(pending + [a, b])
    ensures Cut([a, b] + rest, pending) == Cut([b] + rest, pending + [a])
  {
    assert ([a, b] + rest)[1..] == [b] + rest;
    assert pending + [a] + [b] == pending + [a, b];
  }

  /** Cutting a field off, from any point inside its name. */
  lemma {:induction false} CutField(f: Field, k: nat, tail: string)
    requires k < |Name(f)| && (tail == "" || tail[0] != Letter(f))
    ensures Cut(Name(f)[k..] + tail, Name(f)[..k]) == [Of(f)] + Cut(tail, "")
    decreases |Name(f)| - k
  {
    if k + 1 < |Name(f)| {
      CutFieldStep(f, k, tail);
      CutField(f, k + 1, tail);
    } else {
      CutFieldEnd(f, Name(f)[..k], Name(f)[k..], tail);
    }
  }

  lemma CutOther(text: string, tail: string)
    requires |text| == 1 && !IsLetter(text[0])
    ensures Cut(text + tail, "") == [Other(text)] + Cut(tail, "")
  {
    var rest := text + tail;
    assert "" + [rest[0]] == text == [text[0]] && rest[1..] == tail;
    NoPartMatchAtOther(text[0], if tail == "" then ' ' else tail[0]);
    if tail != "" {
      assert text + [rest[1]] == [text[0]] + [tail[0]];
    }
  }

  /** The longest-match cut finds the pieces of every plain pattern. */
  lemma {:induction false} CutOfUnparse(ps: seq<Piece>)
    requires Plain(ps)
    ensures Cut(Unparse(ps), "") == ps
  {
    if ps != [] {
      CutOfUnparse(ps[1..]);
      match ps[0]
      case Of(f) =>
        NameIsOneLetter(f);
        CutField(f, 0, Unparse(ps[1..]));
        assert Name(f)[0..] == Name(f) && Name(f)[..0] == "";
      case Other(text) =>
        CutOther(text, Unparse(ps[1..]));
    }
  }

  /** So formatting renders the very pieces into which `parse` cuts the pattern. */
  lemma FormatFollowsCut(pattern: string, ps: seq<Piece>, d: Date, strip: bool)
    requires ValidDate(d) && Plain(ps) && pattern == Unparse(ps)
    ensures Format(d, pattern, strip) == Render(Cut(pattern, ""), d, strip)
  {
    CutOfUnparse(ps);
    FormatIsRender(ps, d, strip);
  }
}
