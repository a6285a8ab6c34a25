/** `DateFormat.parse` of gt_base.js, and reading back what `format` wrote: one loop cuts the pattern and
    reads the value; the lemmas take it apart and follow what rendering wrote, field by field. */
module DateParse {
  import opened Strings
  import opened Wrappers
  import opened DateFormat

  // -------------------------------------------------------------------- parsing

  /** A number that `getInt` returns. */
  datatype Num = Val(n: int) | NaN

  /** The arguments of `new Date(...)`, as `parse` has collected them. */
  datatype Parts = Parts(year: Num, month: Num, day: Num, hour: Num, minute: Num, second: Num)

  const DEFAULTS := Parts(Val(1970), Val(1), Val(1), Val(0), Val(0), Val(0))

  datatype ParseError = BadSegment | BadMonth

  /** `getInt`: one leading zero goes, the empty segment is NaN, and values from `max` on throw. */
  function GetInt(segment: string, max: int): Result<Num, ParseError> {
    var s := if segment != "" && segment[0] == '0' then segment[1..] else segment;
    if !AllDigits(s) then Failure(BadSegment)
    else if s == "" then Success(NaN)
    else if NatOf(s) >= max then Failure(BadSegment)
    else Success(Val(NatOf(s)))
  }

  /** The limit that `parse` gives to `getInt`; a month name is below it by its place. */
  function Limit(f: Field): int {
    match f
    case Year4 => 9999
    case Year2 => 99
    case MonthName => 12
    case Month2 => 13
    case Month1 => 13
    case Day2 => 31
    case Day1 => 31
    case Hour2 => 24
    case Hour1 => 24
    case Minute2 => 60
    case Minute1 => 60
    case Second2 => 60
    case Second1 => 60
  }

  function Plus(n: Num, k: int): Num {
    if n == NaN then NaN else Val(n.n + k)
  }

  /** The assignment of the `switch`. */
  function Assign(ps: Parts, f: Field, n: Num): Parts {
    match f
    case Year4 => ps.(year := n)
    case Year2 => ps.(year := Plus(n, 2000))
    case MonthName => ps.(month := n)
    case Month2 => ps.(month := Plus(n, -1))
    case Month1 => ps.(month := Plus(n, -1))
    case Day2 => ps.(day := n)
    case Day1 => ps.(day := n)
    case Hour2 => ps.(hour := n)
    case Hour1 => ps.(hour := n)
    case Minute2 => ps.(minute := n)
    case Minute1 => ps.(minute := n)
    case Second2 => ps.(second := n)
    case Second1 => ps.(second := n)
  }

  /** How many characters of the value a field takes: one-letter fields guess by the next character. */
  function Width(f: Field, value: string, at: nat): nat {
    if Length(f) < 2 && at + 1 < |value| && IsDigit(value[at + 1]) then 2 else Length(f)
  }

  /** `months.indexOf(name)` from place `k` on. */
  function MonthIndex(name: string, k: nat): int
    requires k <= |MONTHS|
    decreases |MONTHS| - k
  {
    if k == |MONTHS| then -1 else if MONTHS[k] == name then k else MonthIndex(name, k + 1)
  }

  /** How many characters a month name takes: two if they are a name, or else three. */
  function MonthWidth(value: string, at: nat): Option<nat> {
    if 0 <= MonthIndex(Substring(value, at, at + 2), 0) then Some(2)
    else if at + 2 < |value| && 0 <= MonthIndex(Substring(value, at, at + 3), 0) then Some(3)
    else None
  }

  /** Where reading stands: the position in the value and the parts set so far. */
  datatype Reading = Reading(at: nat, parts: Parts)

  /** Reading one piece. */
  function ReadPiece(p: Piece, value: string, r: Reading, strip: bool): Result<Reading, ParseError> {
    match p
    case Other(text) => Success(r.(at := if strip && text == "'" then r.at else r.at + |text|))
    case Of(f) => if f == MonthName then ReadMonth(value, r) else ReadField(f, value, r)
  }

  function ReadMonth(value: string, r: Reading): Result<Reading, ParseError> {
    match MonthWidth(value, r.at)
    case None => Failure(BadMonth)
    case Some(w) =>
      var segment := Substring(value, r.at, r.at + w);
      Success(Reading(r.at + |segment|, Assign(r.parts, MonthName, Val(MonthIndex(segment, 0)))))
  }

  function ReadField(f: Field, value: string, r: Reading): Result<Reading, ParseError> {
    var segment := Substring(value, r.at, r.at + Width(f, value, r.at));
    match GetInt(segment, Limit(f))
    case Failure(e) => Failure(e)
    case Success(n) => Success(Reading(r.at + |segment|, Assign(r.parts, f, n)))
  }

  /** Reading the value along the pieces of the pattern. */
  function ReadPieces(ps: seq<Piece>, value: string, r: Reading, strip: bool): Result<Reading, ParseError>
    decreases |ps|
  {
    if ps == [] then Success(r)
    else
      match ReadPiece(ps[0], value, r, strip)
      case Failure(e) => Failure(e)
      case Success(next) => ReadPieces(ps[1..], value, next, strip)
  }

  /** The parts read from a value; None, which is null in the source, for the empty value. */
  function ParseSpec(value: string, pattern: string, strip: bool): Result<Option<Parts>, ParseError> {
    if value == "" then Success(None)
    else
      match ReadPieces(Cut(pattern, ""), value, Reading(0, DEFAULTS), strip)
      case Success(r) => Success(Some(r.parts))
      case Failure(e) => Failure(e)
  }

  /** The digits that a field takes: one-letter fields shift by the character after next. */
  method Segment(f: Field, value: string, at: nat) returns (segment: string)
    ensures segment == Substring(value, at, at + Width(f, value, at))
  {
    var shift := 0;
    if Length(f) < 2 && at < |value| - 1 {
      if IsDigit(value[at + 1]) {
        shift := 1;
      }
    }
    segment := Substring(value, at, at + Length(f) + shift);
  }

  /** `getMonthShift`: the length of the month name less that of its pattern; None where it throws. */
  method GetMonthShift(value: string, at: nat) returns (shift: Option<int>)
    ensures shift == if MonthWidth(value, at).None? then None else Some(MonthWidth(value, at).value - 3)
    ensures shift.Some? ==> -1 <= shift.value <= 0
  {
    var month := Substring(value, at, at + 2);
    if MonthIndex(month, 0) >= 0 {
      return Some(-1);
    } else if |value| > at + 2 {
      month := Substring(value, at, at + 3);
      if MonthIndex(month, 0) >= 0 {
        return Some(0);
      }
    }
    return None;
  }

  method ReadMonthName(value: string, at: nat, parts: Parts) returns (r: Result<Reading, ParseError>)
    ensures r == ReadMonth(value, Reading(at, parts))
  {
    var shift := GetMonthShift(value, at);
    if shift.None? {
      return Failure(BadMonth);
    }
    var name := Substring(value, at, at + 3 + shift.value);
    return Success(Reading(at + |name|, Assign(parts, MonthName, Val(MonthIndex(name, 0)))));
  }

  method ReadNumber(f: Field, value: string, at: nat, parts: Parts) returns (r: Result<Reading, ParseError>)
    ensures r == ReadField(f, value, Reading(at, parts))
  {
    var segment := Segment(f, value, at);
    match GetInt(segment, Limit(f))
    case Failure(e) => return Failure(e);
    case Success(n) => return Success(Reading(at + |segment|, Assign(parts, f, n)));
  }

  /** The body of the loop of `parse` for a piece that is complete. */
  method ReadOne(p: Piece, value: string, at: nat, parts: Parts, strip: bool)
    returns (r: Result<Reading, ParseError>)
    ensures r == ReadPiece(p, value, Reading(at, parts), strip)
  {
    match p
    case Other(text) =>
      if !(strip && text == "'") {
        return Success(Reading(at + |text|, parts));
      }
      return Success(Reading(at, parts));
    case Of(f) =>
      if f == MonthName {
        r := ReadMonthName(value, at, parts);
        return;
      }
      r := ReadNumber(f, value, at, parts);
  }

  /** What is still to be read at position `i` of the pattern, after a started field. */
  function ReadFrom(pattern: string, i: nat, pending: string, value: string, r: Reading, strip: bool): Result<Reading, ParseError>
    requires i <= |pattern|
  {
    ReadPieces(Cut(pattern[i..], pending), value, r, strip)
  }

  lemma ReadOn(pattern: string, i: nat, pending: string, value: string, r: Reading, strip: bool)
    requires i < |pattern|
    ensures var started := pending + [pattern[i]];
            var first := ReadPiece(PieceOf(started), value, r, strip);
            ReadFrom(pattern, i, pending, value, r, strip)
            == if i + 1 < |pattern| && IsPartMatched(started + [pattern[i + 1]]) then ReadFrom(pattern, i + 1, started, value, r, strip)
               else if first.Failure? then Failure(first.error)
               else ReadFrom(pattern, i + 1, "", value, first.value, strip)
  {
  }

  /** `parse`: one loop over the pattern that cuts it and reads the value as it goes. */
  method Parse(value: string, pattern: string, strip: bool) returns (result: Result<Option<Parts>, ParseError>)
    ensures result == ParseSpec(value, pattern, strip)
  {
    if value == "" {
      return Success(None);
    }
    var r := Reading(0, DEFAULTS);
    var pending := "";
    var i := 0;
    ghost var goal := ReadPieces(Cut(pattern, ""), value, r, strip);
    assert pattern[0..] == pattern;
    while i < |pattern|
      invariant 0 <= i <= |pattern| && (i == |pattern| ==> pending == "")
      invariant ReadFrom(pattern, i, pending, value, r, strip) == goal
    {
      ReadOn(pattern, i, pending, value, r, strip);
      pending := pending + [pattern[i]];
      if i < |pattern| - 1 && IsPartMatched(pending + [pattern[i + 1]]) {
        i := i + 1;
        continue;
      }
      var next := ReadOne(PieceOf(pending), value, r.at, r.parts, strip);
      if next.Failure? {
        return Failure(next.error);
      }
      r := next.value;
      pending := "";
      i := i + 1;
    }
    return Success(Some(r.parts));
  }

  // ----------------------------------------------------------------- round trip

  /** The number that a field shows; the name of a month shows its place. */
  function Shows(f: Field, d: Date): int {
    match f
    case Year4 => d.year
    case Year2 => d.year % 100
    case MonthName => d.month
    case Month2 | Month1 => d.month + 1
    case Day2 | Day1 => d.day
    case Hour2 | Hour1 => d.hour
    case Minute2 | Minute1 => d.minute
    case Second2 | Second1 => d.second
  }

  predicate FixedWidth(f: Field) {
    f in {Year4, Month2, Day2, Hour2, Minute2, Second2}
  }

  predicate FourDigitYear(d: Date) {
    1000 <= d.year <= 9999
  }

  lemma DecimalLength(n: nat)
    ensures n < 10 ==> |Decimal(n)| == 1
    ensures 10 <= n < 100 ==> |Decimal(n)| == 2
    ensures 1000 <= n <= 9999 ==> |Decimal(n)| == 4
  {
    if 10 <= n {
      assert |Decimal(n)| == |Decimal(n / 10)| + 1;
      if 100 <= n {
        assert |Decimal(n / 10)| == |Decimal(n / 100)| + 1 by { assert n / 10 / 10 == n / 100; }
        if 1000 <= n <= 9999 {
          assert |Decimal(n / 100)| == |Decimal(n / 1000)| + 1 by { assert n / 100 / 10 == n / 1000; }
        }
      }
    }
  }

  lemma GetIntOfDecimal(n: nat, max: int)
    requires 0 < n
    ensures GetInt(Decimal(n), max) == if n < max then Success(Val(n)) else Failure(BadSegment)
  {
    NatOfDecimal(n);
  }

  lemma GetIntOfPad2(n: nat, max: int)
    requires n < 100
    ensures GetInt(Pad2(n), max) == if n < max then Success(Val(n)) else Failure(BadSegment)
  {
    NatOfDecimal(n);
    if n < 10 {
      assert ("0" + Decimal(n))[1..] == Decimal(n);
    }
  }

  /** A fixed-width field is shown in the width that is read back, and read back within its limit. */
  lemma FieldRoundTrip(f: Field, d: Date)
    requires ValidDate(d) && FourDigitYear(d) && FixedWidth(f)
    ensures |Shown(f, d)| == |Name(f)|
    ensures GetInt(Shown(f, d), Limit(f))
         == if FieldOk(f, d) then Success(Val(Shows(f, d))) else Failure(BadSegment)
  {
    if f == Year4 {
      DecimalLength(d.year);
      GetIntOfDecimal(d.year, Limit(f));
    } else {
      DecimalLength(Shows(f, d));
      GetIntOfPad2(Shows(f, d), Limit(f));
    }
  }

  /** The short fields: an unpadded zero is read back as no number, and the year 99 is refused. */
  lemma ShortFieldRoundTrip(f: Field, d: Date)
    requires ValidDate(d) && !FixedWidth(f) && f != MonthName
    ensures GetInt(Shown(f, d), Limit(f))
         == if Length(f) == 1 && Shows(f, d) == 0 then Success(NaN)
            else if FieldOk(f, d) then Success(Val(Shows(f, d)))
            else Failure(BadSegment)
  {
    if f == Year2 {
      GetIntOfPad2(Shows(f, d), Limit(f));
    } else if Shows(f, d) == 0 {
      assert Decimal(0) == "0" && "0"[1..] == "";
    } else {
      GetIntOfDecimal(Shows(f, d), Limit(f));
    }
  }

  // ------------------------------------------------------------------ month names

  const MONTH: char := '月'

  /** A month name ends at its only sign for month, after one or two characters. */
  lemma MonthNameShape(m: nat)
    requires m < 12
    ensures var name := MONTHS[m];
            && |name| == (if m < 10 then 2 else 3)
            && name[|name| - 1] == MONTH && name[|name| - 2] != MONTH
  {
  }

  lemma {:induction false} MonthIndexFinds(m: nat, k: nat)
    requires k <= m < 12
    ensures MonthIndex(MONTHS[m], k) == m
    decreases m - k
  {
    if k < m {
      MonthIndexFinds(m, k + 1);
    }
  }

  lemma {:induction false} NoSuchMonth(name: string, k: nat)
    requires k <= 12 && (name == "" || name[|name| - 1] != MONTH)
    ensures MonthIndex(name, k) == -1
    decreases 12 - k
  {
    if k < 12 {
      MonthNameShape(k);
      NoSuchMonth(name, k + 1);
    }
  }

  lemma {:induction false} MonthIndexIs(name: string, k: nat)
    requires k <= 12
    ensures var m := MonthIndex(name, k); if 0 <= m then k <= m < 12 && MONTHS[m] == name else forall n :: k <= n < 12 ==> MONTHS[n] != name
    decreases 12 - k
  {
    if k < 12 && MONTHS[k] != name {
      MonthIndexIs(name, k + 1);
    }
  }

  /** What is left of the value. */
  function Rest(value: string, at: nat): string {
    if at <= |value| then value[at..] else ""
  }

  /** A month name is recognised exactly where one stands, and by its own length. */
  lemma MonthWidthIs(value: string, at: nat)
    ensures MonthWidth(value, at).None? <==> forall m :: 0 <= m < 12 ==> !(MONTHS[m] <= Rest(value, at))
    ensures forall m :: 0 <= m < 12 && MONTHS[m] <= Rest(value, at) ==> MonthWidth(value, at) == Some(|MONTHS[m]|)
  {
    var two, three := Substring(value, at, at + 2), Substring(value, at, at + 3);
    MonthIndexIs(two, 0);
    MonthIndexIs(three, 0);
    forall m | 0 <= m < 12
      ensures |MONTHS[m]| == 2 ==> (MONTHS[m] <= Rest(value, at) <==> two == MONTHS[m])
      ensures |MONTHS[m]| == 3 ==> (MONTHS[m] <= Rest(value, at) <==> three == MONTHS[m])
      ensures |MONTHS[m]| == 2 || |MONTHS[m]| == 3
    {
      MonthNameShape(m);
    }
    forall m, n | 0 <= m < 12 && 0 <= n < 12 && |MONTHS[m]| == 2 && |MONTHS[n]| == 3
      ensures !(MONTHS[m] <= Rest(value, at) && MONTHS[n] <= Rest(value, at))
    {
      MonthNameShape(m);
      MonthNameShape(n);
    }
  }

  /** A month name is read back as a whole, whatever follows. */
  lemma MonthIsRead(m: nat, value: string, r: Reading)
    requires m < 12 && r.at <= |value| && MONTHS[m] <= value[r.at..]
    ensures ReadMonth(value, r) == Success(Reading(r.at + |MONTHS[m]|, Assign(r.parts, MonthName, Val(m))))
  {
    var name := MONTHS[m];
    MonthNameShape(m);
    MonthIndexFinds(m, 0);
    SubstringOf(value, r.at, name);
    if m >= 10 {
      var front := name[..2];
      assert front <= value[r.at..];
      SubstringOf(value, r.at, front);
      NoSuchMonth(front, 0);
    }
  }

  // -------------------------------------------------------------- pieces read back

  predicate FieldOk(f: Field, d: Date) {
    Shows(f, d) < Limit(f)
  }

  /** The number that reading a shown field gives; None where it is refused. */
  function Reads(f: Field, d: Date): Option<Num> {
    if Length(f) == 1 && Shows(f, d) == 0 then Some(NaN)
    else if FieldOk(f, d) then Some(Val(Shows(f, d)))
    else None
  }

  predicate IsShort(p: Piece) {
    p.Of? && Length(p.field) == 1
  }

  predicate Fits(p: Piece, d: Date) {
    p == Of(Year4) ==> 1000 <= d.year
  }

  /** A field is followed so that it takes what it was shown with: a year of more than four digits never
      is, a single digit not by another one. */
  predicate Aligned(p: Piece, d: Date, next: string) {
    p.Of? ==>
      && (p.field == Year4 ==> d.year <= 9999)
      && (IsShort(p) && Shows(p.field, d) < 10 ==> next == "" || !IsDigit(next[0]))
  }

  /** The next character that is shown is no digit. */
  predicate StopsShort(ps: seq<Piece>, strip: bool) {
    ps == [] ||
    match ps[0]
    case Of(f) => f == MonthName
    case Other(text) =>
      if strip && text == "'" then StopsShort(ps[1..], strip) else text != "" && !IsDigit(text[0]) && (strip ==> text[0] != '\'')
  }

  lemma {:induction false} ShownStops(ps: seq<Piece>, d: Date, strip: bool)
    requires ValidDate(d) && StopsShort(ps, strip)
    ensures var shown := Render(ps, d, strip); shown == "" || !IsDigit(shown[0])
  {
    if ps != [] {
      match ps[0]
      case Of(f) =>
        MonthNameShape(d.month);
        assert MONTHS[d.month][0] != '0' && !IsDigit(MONTHS[d.month][0]);
      case Other(text) =>
        if strip && text == "'" {
          assert text == ['\''] && text[1..] == "" && WithoutQuotes(text) == "";
          ShownStops(ps[1..], d, strip);
        }
    }
  }

  /** An aligned field takes exactly the characters it was shown with: the padded ones by their pattern,
      the short ones because a second digit follows exactly when they have one. */
  lemma WidthOfShown(f: Field, d: Date, value: string, at: nat)
    requires ValidDate(d) && f != MonthName && Fits(Of(f), d)
    requires at <= |value| && Shown(f, d) <= value[at..] && Aligned(Of(f), d, value[at + |Shown(f, d)|..])
    ensures Width(f, value, at) == |Shown(f, d)|
  {
    DecimalLength(Shows(f, d));
    if Length(f) == 1 {
      assert Shown(f, d) == Decimal(Shows(f, d));
      assert |Shown(f, d)| == 2 ==> value[at + 1] == Shown(f, d)[1];
    }
  }

  predicate Refused(p: Piece, d: Date) {
    p.Of? && Reads(p.field, d).None?
  }

  function After(p: Piece, d: Date, r: Reading, strip: bool): Reading
    requires ValidDate(d)
  {
    Reading(r.at + |RenderPiece(p, d, strip)|, AssignPiece(r.parts, p, d))
  }

  function AssignPiece(parts: Parts, p: Piece, d: Date): Parts {
    if p.Of? && !Refused(p, d) then Assign(parts, p.field, Reads(p.field, d).value) else parts
  }

  /** What reading the pieces one after the other does to the parts; None where a limit refuses. */
  function ReadAll(ps: seq<Piece>, d: Date, parts: Parts): Option<Parts>
    decreases |ps|
  {
    if ps == [] then Some(parts)
    else if Refused(ps[0], d) then None
    else ReadAll(ps[1..], d, AssignPiece(parts, ps[0], d))
  }

  predicate SingleLiterals(ps: seq<Piece>) {
    forall i :: 0 <= i < |ps| && ps[i].Other? ==> |ps[i].text| == 1
  }

  /** Every field is aligned with what is shown after it. */
  predicate Whole(ps: seq<Piece>, d: Date, strip: bool)
    requires ValidDate(d)
  {
    ps == [] || (Aligned(ps[0], d, Render(ps[1..], d, strip)) && Whole(ps[1..], d, strip))
  }

  predicate AllFit(ps: seq<Piece>, d: Date) {
    forall i :: 0 <= i < |ps| ==> Fits(ps[i], d)
  }

  /** Reading a piece where it was rendered: a literal is passed over, a field is read as a whole
      and refused beyond its limit. */
  lemma ReadRendered(p: Piece, d: Date, value: string, r: Reading, strip: bool)
    requires ValidDate(d) && Fits(p, d) && (p.Other? ==> |p.text| == 1)
    requires r.at <= |value| && RenderPiece(p, d, strip) <= value[r.at..]
    requires Aligned(p, d, value[r.at + |RenderPiece(p, d, strip)|..])
    ensures ReadPiece(p, value, r, strip)
         == if Refused(p, d) then Failure(BadSegment) else Success(After(p, d, r, strip))
  {
    match p
    case Other(text) => LiteralIsPassed(text, strip);
    case Of(f) => OneFieldIsRead(f, d, value, r, strip);
  }

  lemma OneFieldIsRead(f: Field, d: Date, value: string, r: Reading, strip: bool)
    requires ValidDate(d) && Fits(Of(f), d)
    requires r.at <= |value| && Shown(f, d) <= value[r.at..] && Aligned(Of(f), d, value[r.at + |Shown(f, d)|..])
    ensures ReadPiece(Of(f), value, r, strip)
         == if Refused(Of(f), d) then Failure(BadSegment) else Success(After(Of(f), d, r, strip))
  {
    if f == MonthName {
      assert Reads(f, d) == Some(Val(d.month)) && Shown(f, d) == MONTHS[d.month];
      MonthIsRead(d.month, value, r);
    } else {
      FieldIsRead(f, d, value, r);
    }
  }

  lemma FieldIsRead(f: Field, d: Date, value: string, r: Reading)
    requires ValidDate(d) && f != MonthName && Fits(Of(f), d)
    requires r.at <= |value| && Shown(f, d) <= value[r.at..] && Aligned(Of(f), d, value[r.at + |Shown(f, d)|..])
    ensures ReadField(f, value, r)
         == if Reads(f, d).None? then Failure(BadSegment)
            else Success(Reading(r.at + |Shown(f, d)|, Assign(r.parts, f, Reads(f, d).value)))
  {
    ShownIsTaken(f, d, value, r.at);
    ShownIsRead(f, d);
  }

  lemma ShownIsTaken(f: Field, d: Date, value: string, at: nat)
    requires ValidDate(d) && f != MonthName && Fits(Of(f), d)
    requires at <= |value| && Shown(f, d) <= value[at..] && Aligned(Of(f), d, value[at + |Shown(f, d)|..])
    ensures Width(f, value, at) == |Shown(f, d)| && Substring(value, at, at + |Shown(f, d)|) == Shown(f, d)
  {
    WidthOfShown(f, d, value, at);
    SubstringOf(value, at, Shown(f, d));
  }

  lemma LiteralIsPassed(text: string, strip: bool)
    requires |text| == 1
    ensures |if strip then WithoutQuotes(text) else text| == if strip && text == "'" then 0 else |text|
  {
    assert text == [text[0]] && text[1..] == "";
    assert WithoutQuotes(text) == if text[0] == '\'' then "" else text;
    assert text[0] == '\'' <==> text == "'";
  }

  lemma ShownIsRead(f: Field, d: Date)
    requires ValidDate(d) && f != MonthName && Fits(Of(f), d)
    requires f == Year4 ==> d.year <= 9999
    ensures GetInt(Shown(f, d), Limit(f))
         == if Reads(f, d).None? then Failure(BadSegment) else Success(Reads(f, d).value)
  {
    if f == Year4 {
      DecimalLength(d.year);
      GetIntOfDecimal(d.year, Limit(f));
    } else if FixedWidth(f) {
      GetIntOfPad2(Shows(f, d), Limit(f));
    } else {
      ShortFieldRoundTrip(f, d);
    }
  }

  lemma SubstringOf(value: string, at: nat, x: string)
    requires at <= |value| && x <= value[at..]
    ensures Substring(value, at, at + |x|) == x
  {
    assert value[at..at + |x|] == value[at..][..|x|];
  }

  lemma RenderTail(ps: seq<Piece>, d: Date, value: string, at: nat, strip: bool)
    requires ValidDate(d) && ps != [] && at <= |value| && value[at..] == Render(ps, d, strip)
    ensures var next := at + |RenderPiece(ps[0], d, strip)|;
            && RenderPiece(ps[0], d, strip) <= value[at..]
            && next <= |value| && value[next..] == Render(ps[1..], d, strip)
  {
    var piece := RenderPiece(ps[0], d, strip);
    assert value[at + |piece|..] == value[at..][|piece|..];
  }

  predicate Agree(read: Result<Reading, ParseError>, all: Option<Parts>, end: nat) {
    read == if all.Some? then Success(Reading(end, all.value)) else Failure(BadSegment)
  }

  /** Reading along the pieces what rendering them wrote. */
  lemma {:induction false} ParseRendered(ps: seq<Piece>, d: Date, value: string, r: Reading, strip: bool)
    requires ValidDate(d) && AllFit(ps, d) && SingleLiterals(ps) && Whole(ps, d, strip)
    requires r.at <= |value| && value[r.at..] == Render(ps, d, strip)
    ensures Agree(ReadPieces(ps, value, r, strip), ReadAll(ps, d, r.parts), |value|)
    decreases |ps|
  {
    if ps != [] {
      RenderTail(ps, d, value, r.at, strip);
      ReadRendered(ps[0], d, value, r, strip);
      if !Refused(ps[0], d) {
        ParseRendered(ps[1..], d, value, After(ps[0], d, r, strip), strip);
      }
    }
  }

  // ------------------------------------------------------------ what is read back

  /** The arguments that denote `d`. */
  function PartsOf(d: Date): Parts {
    Parts(Val(d.year), Val(d.month), Val(d.day), Val(d.hour), Val(d.minute), Val(d.second))
  }

  /** The part of `parts` that a field sets. */
  function PartAt(parts: Parts, f: Field): Num {
    match f
    case Year4 | Year2 => parts.year
    case MonthName | Month2 | Month1 => parts.month
    case Day2 | Day1 => parts.day
    case Hour2 | Hour1 => parts.hour
    case Minute2 | Minute1 => parts.minute
    case Second2 | Second1 => parts.second
  }

  /** What is stored of the number that a field was read as. */
  function Stored(f: Field, n: Num): Num {
    match f
    case Year2 => Plus(n, 2000)
    case Month2 | Month1 => Plus(n, -1)
    case _ => n
  }

  lemma AssignSets(parts: Parts, f: Field, g: Field, n: Num)
    ensures PartAt(Assign(parts, f, n), g) == if Letter(f) == Letter(g) then Stored(f, n) else PartAt(parts, g)
  {
  }

  /** When a field brings its part of the date back: below the limits, a two-digit year in this
      century, and no lone zero. */
  predicate ComesBack(f: Field, d: Date) {
    match f
    case Year4 => d.year <= 9998
    case Year2 => 2000 <= d.year <= 2098
    case MonthName | Month2 | Month1 => true
    case Day2 | Day1 => d.day <= 30
    case Hour2 | Minute2 | Second2 => true
    case Hour1 => d.hour != 0
    case Minute1 => d.minute != 0
    case Second1 => d.second != 0
  }

  lemma FieldComesBack(f: Field, d: Date)
    requires ValidDate(d) && Fits(Of(f), d)
    ensures Reads(f, d).Some? && Stored(f, Reads(f, d).value) == PartAt(PartsOf(d), f) <==> ComesBack(f, d)
  {
  }

  predicate AllComeBack(ps: seq<Piece>, d: Date) {
    forall i :: 0 <= i < |ps| && ps[i].Of? ==> ComesBack(ps[i].field, d)
  }

  predicate WithinLimits(ps: seq<Piece>, d: Date) {
    forall i :: 0 <= i < |ps| && ps[i].Of? ==> Reads(ps[i].field, d).Some?
  }

  /** No two fields of one letter. */
  predicate OnePerLetter(ps: seq<Piece>) {
    forall i, j :: 0 <= i < j < |ps| && ps[i].Of? && ps[j].Of? ==> Letter(ps[i].field) != Letter(ps[j].field)
  }

  predicate HasLetter(ps: seq<Piece>, c: char) {
    exists i :: 0 <= i < |ps| && ps[i].Of? && Letter(ps[i].field) == c
  }

  lemma {:induction false} ReadAllWithinLimits(ps: seq<Piece>, d: Date, parts: Parts)
    ensures ReadAll(ps, d, parts).Some? <==> WithinLimits(ps, d)
    decreases |ps|
  {
    if ps != [] {
      if !Refused(ps[0], d) { ReadAllWithinLimits(ps[1..], d, AssignPiece(parts, ps[0], d)); }
    }
  }

  lemma {:induction false} ReadAllKeeps(ps: seq<Piece>, d: Date, parts: Parts, f: Field)
    requires !HasLetter(ps, Letter(f)) && ReadAll(ps, d, parts).Some?
    ensures PartAt(ReadAll(ps, d, parts).value, f) == PartAt(parts, f)
    decreases |ps|
  {
    if ps != [] {
      if ps[0].Of? { AssignSets(parts, ps[0].field, f, Reads(ps[0].field, d).value); }
      ReadAllKeeps(ps[1..], d, AssignPiece(parts, ps[0], d), f);
    }
  }

  /** In the end every field has set its part, since no later field sets it again. */
  lemma {:induction false} ReadAllSets(ps: seq<Piece>, d: Date, parts: Parts, f: Field)
    requires OnePerLetter(ps) && Of(f) in ps && ReadAll(ps, d, parts).Some?
    ensures Reads(f, d).Some? && PartAt(ReadAll(ps, d, parts).value, f) == Stored(f, Reads(f, d).value)
    decreases |ps|
  {
    var next := AssignPiece(parts, ps[0], d);
    if ps[0] == Of(f) {
      AssignSets(parts, f, f, Reads(f, d).value);
      ReadAllKeeps(ps[1..], d, next, f);
    } else {
      ReadAllSets(ps[1..], d, next, f);
    }
  }

  /** One field for every part of a date, amid non-letters. */
  predicate Complete(ps: seq<Piece>) {
    && Plain(ps) && OnePerLetter(ps)
    && HasLetter(ps, 'y') && HasLetter(ps, 'M') && HasLetter(ps, 'd')
    && HasLetter(ps, 'H') && HasLetter(ps, 'm') && HasLetter(ps, 's')
  }

  lemma ReadAllOfComplete(ps: seq<Piece>, d: Date)
    requires Complete(ps) && ValidDate(d) && AllFit(ps, d)
    ensures ReadAll(ps, d, DEFAULTS) == Some(PartsOf(d)) <==> AllComeBack(ps, d)
  {
    ReadAllWithinLimits(ps, d, DEFAULTS);
    var r := ReadAll(ps, d, DEFAULTS);
    if r.None? {
      var i :| 0 <= i < |ps| && ps[i].Of? && Reads(ps[i].field, d).None?;
      FieldComesBack(ps[i].field, d);
    } else {
      forall i | 0 <= i < |ps| && ps[i].Of?
        ensures ComesBack(ps[i].field, d) <==> PartAt(r.value, ps[i].field) == PartAt(PartsOf(d), ps[i].field)
      {
        FieldComesBack(ps[i].field, d);
        ReadAllSets(ps, d, DEFAULTS, ps[i].field);
      }
    }
  }

  // ------------------------------------------------------------- fields misread

  /** No lone zero is followed by another zero. */
  predicate NoDoubleZero(ps: seq<Piece>, d: Date, strip: bool)
    requires ValidDate(d)
  {
    ps == [] ||
    (&& (IsShort(ps[0]) && Shows(ps[0].field, d) == 0 ==>
           var next := Render(ps[1..], d, strip); next == "" || next[0] != '0')
     && NoDoubleZero(ps[1..], d, strip))
  }

  /** Two digits are another number than the first of them, unless both are zeros. */
  lemma TwoDigits(n: nat, c: char, max: int)
    requires n < 10 && IsDigit(c) && (n == 0 ==> c != '0')
    ensures var read := GetInt(Decimal(n) + [c], max); read.Success? ==> read.value != NaN && read.value.n != n
  {
    var two := Decimal(n) + [c];
    NatOfDecimal(n);
    assert two[..1] == Decimal(n) && two[1..] == [c];
    assert NatOf([c]) == c as int - '0' as int by { assert [c][..0] == ""; }
    assert NatOf(two) == 10 * n + (c as int - '0' as int);
  }

  /** A field that is not aligned is refused or read as another number. */
  lemma FieldIsMisread(f: Field, d: Date, value: string, r: Reading)
    requires ValidDate(d) && Fits(Of(f), d) && r.at <= |value| && Shown(f, d) <= value[r.at..]
    requires var next := value[r.at + |Shown(f, d)|..];
             && !Aligned(Of(f), d, next)
             && (IsShort(Of(f)) && Shows(f, d) == 0 ==> next == "" || next[0] != '0')
    ensures var read := ReadField(f, value, r);
            f != MonthName && (read.Success? ==> PartAt(read.value.parts, f) != PartAt(PartsOf(d), f))
  {
    var segment := Substring(value, r.at, r.at + Width(f, value, r.at));
    var n := GetInt(segment, Limit(f));
    if n.Success? {
      AssignSets(r.parts, f, f, n.value);
      if f != Year4 {
        var c := value[r.at + |Shown(f, d)|];
        ShortSegment(Shows(f, d), c, value, r.at);
        TwoDigits(Shows(f, d), c, Limit(f));
      }
    }
  }

  lemma ShortSegment(n: nat, c: char, value: string, at: nat)
    requires n < 10 && IsDigit(c) && at + 1 < |value| && Decimal(n) <= value[at..] && value[at + 1] == c
    ensures Substring(value, at, at + 2) == Decimal(n) + [c]
  {
    var rest := value[at..];
    assert |Decimal(n)| == 1 && rest[0] == Decimal(n)[0] && rest[0] == value[at];
    assert value[at..at + 2] == [value[at], value[at + 1]];
  }

  /** What a later field of another letter does not change. */
  lemma {:induction false} ReadKeeps(ps: seq<Piece>, value: string, r: Reading, strip: bool, f: Field)
    requires !HasLetter(ps, Letter(f)) && ReadPieces(ps, value, r, strip).Success?
    ensures PartAt(ReadPieces(ps, value, r, strip).value.parts, f) == PartAt(r.parts, f)
    decreases |ps|
  {
    if ps != [] {
      var first := ReadPiece(ps[0], value, r, strip);
      PieceKeeps(ps[0], value, r, strip, f);
      ReadKeeps(ps[1..], value, first.value, strip, f);
    }
  }

  lemma PieceKeeps(p: Piece, value: string, r: Reading, strip: bool, f: Field)
    requires (p.Of? ==> Letter(p.field) != Letter(f)) && ReadPiece(p, value, r, strip).Success?
    ensures PartAt(ReadPiece(p, value, r, strip).value.parts, f) == PartAt(r.parts, f)
  {
    match p
    case Other(text) =>
    case Of(g) =>
      if g == MonthName {
        AssignSets(r.parts, g, f, Val(MonthIndex(Substring(value, r.at, r.at + MonthWidth(value, r.at).value), 0)));
      } else {
        AssignSets(r.parts, g, f, GetInt(Substring(value, r.at, r.at + Width(g, value, r.at)), Limit(g)).value);
      }
  }

  /** Where some field is not aligned, the first such field ends up wrong. */
  lemma {:induction false} Misread(ps: seq<Piece>, d: Date, value: string, r: Reading, strip: bool) returns (f: Field)
    requires ValidDate(d) && AllFit(ps, d) && SingleLiterals(ps) && OnePerLetter(ps)
    requires !Whole(ps, d, strip) && NoDoubleZero(ps, d, strip)
    requires r.at <= |value| && value[r.at..] == Render(ps, d, strip)
    ensures var read := ReadPieces(ps, value, r, strip);
            Of(f) in ps && (read.Success? ==> PartAt(read.value.parts, f) != PartAt(PartsOf(d), f))
    decreases |ps|
  {
    RenderTail(ps, d, value, r.at, strip);
    if Aligned(ps[0], d, Render(ps[1..], d, strip)) {
      ReadRendered(ps[0], d, value, r, strip);
      f := Misread(ps[1..], d, value, After(ps[0], d, r, strip), strip);
    } else {
      f := ps[0].field;
      FirstIsMisread(ps, d, value, r, strip);
    }
  }

  lemma FirstIsMisread(ps: seq<Piece>, d: Date, value: string, r: Reading, strip: bool)
    requires ValidDate(d) && ps != [] && AllFit(ps, d) && OnePerLetter(ps) && NoDoubleZero(ps, d, strip)
    requires r.at <= |value| && value[r.at..] == Render(ps, d, strip)
    requires !Aligned(ps[0], d, Render(ps[1..], d, strip))
    ensures var read := ReadPieces(ps, value, r, strip);
            read.Success? ==> PartAt(read.value.parts, ps[0].field) != PartAt(PartsOf(d), ps[0].field)
  {
    var f, first := ps[0].field, ReadPiece(ps[0], value, r, strip);
    RenderTail(ps, d, value, r.at, strip);
    FieldIsMisread(f, d, value, r);
    if ReadPieces(ps, value, r, strip).Success? {
      ReadKeeps(ps[1..], value, first.value, strip, f);
    }
  }

  /** Parsing undoes formatting exactly when every field is aligned and brings its part of the date
      back, for every complete pattern: the year 9999 and the 31st are refused, a lone zero is not a
      number, a two-digit year is taken for one of this century below 99, and a single digit of a short
      field takes a following digit with it. */
  lemma ParseUndoesFormatExactly(ps: seq<Piece>, d: Date, strip: bool)
    requires Complete(ps) && ValidDate(d) && AllFit(ps, d) && NoDoubleZero(ps, d, strip)
    ensures var r := ParseSpec(Format(d, Unparse(ps), strip), Unparse(ps), strip);
            && (r == Success(Some(PartsOf(d))) <==> Whole(ps, d, strip) && AllComeBack(ps, d))
            && (Whole(ps, d, strip) ==> (r.Failure? <==> !WithinLimits(ps, d)))
  {
    CutOfUnparse(ps);
    FormatIsRender(ps, d, strip);
    var value := Render(ps, d, strip);
    assert value[0..] == value;
    SomethingIsShown(ps, d, strip);
    if Whole(ps, d, strip) {
      ParseRendered(ps, d, value, Reading(0, DEFAULTS), strip);
      ReadAllOfComplete(ps, d);
      ReadAllWithinLimits(ps, d, DEFAULTS);
    } else {
      var f := Misread(ps, d, value, Reading(0, DEFAULTS), strip);
    }
  }

  lemma SomethingIsShown(ps: seq<Piece>, d: Date, strip: bool)
    requires ValidDate(d) && HasLetter(ps, 'y')
    ensures Render(ps, d, strip) != ""
  {
    var i :| 0 <= i < |ps| && ps[i].Of? && Letter(ps[i].field) == 'y';
    FieldIsRendered(ps, ps[i].field, d, strip);
  }

  lemma {:induction false} FieldIsRendered(ps: seq<Piece>, f: Field, d: Date, strip: bool)
    requires ValidDate(d) && Of(f) in ps
    ensures |Render(ps, d, strip)| >= |Shown(f, d)|
  {
    if ps[0] != Of(f) {
      FieldIsRendered(ps[1..], f, d, strip);
    }
  }

  // --------------------------------------------------------------- padded patterns

  predicate AllFixedWidth(ps: seq<Piece>) {
    forall i :: 0 <= i < |ps| && ps[i].Of? ==> FixedWidth(ps[i].field)
  }

  /** Each of the six fixed-width fields, once, amid non-letters. */
  predicate CompletePattern(ps: seq<Piece>) {
    Plain(ps) && AllFixedWidth(ps) && HasSix(ps)
  }

  predicate HasSix(ps: seq<Piece>) {
    Of(Year4) in ps && Of(Month2) in ps && Of(Day2) in ps && Of(Hour2) in ps && Of(Minute2) in ps && Of(Second2) in ps
  }

  /** After every short field something else than a digit is shown, whatever the date. */
  predicate ShortFieldsStop(ps: seq<Piece>, strip: bool) {
    ps == [] || ((IsShort(ps[0]) ==> StopsShort(ps[1..], strip)) && ShortFieldsStop(ps[1..], strip))
  }

  /** Such patterns are aligned with every date of a four-digit year. */
  lemma {:induction false} StopsAreWhole(ps: seq<Piece>, d: Date, strip: bool)
    requires ValidDate(d) && d.year <= 9999 && ShortFieldsStop(ps, strip)
    ensures Whole(ps, d, strip) && NoDoubleZero(ps, d, strip)
  {
    if ps != [] {
      if IsShort(ps[0]) { ShownStops(ps[1..], d, strip); }
      StopsAreWhole(ps[1..], d, strip);
    }
  }

  lemma {:induction false} PaddedStops(ps: seq<Piece>, strip: bool)
    requires AllFixedWidth(ps)
    ensures ShortFieldsStop(ps, strip)
  {
    if ps != [] {
      assert forall i :: 0 <= i < |ps[1..]| ==> ps[1..][i] == ps[i + 1];
      PaddedStops(ps[1..], strip);
    }
  }

  lemma PaddedIsComplete(ps: seq<Piece>)
    requires CompletePattern(ps)
    ensures Complete(ps)
  {
    PaddedOnePerLetter(ps);
  }

  lemma PaddedOnePerLetter(ps: seq<Piece>)
    requires Plain(ps) && AllFixedWidth(ps)
    ensures OnePerLetter(ps)
  {
    forall i, j | 0 <= i < j < |ps| && ps[i].Of? && ps[j].Of?
      ensures Letter(ps[i].field) != Letter(ps[j].field)
    {
    }
  }

  lemma LimitsOfComplete(ps: seq<Piece>, d: Date)
    requires CompletePattern(ps) && ValidDate(d) && FourDigitYear(d)
    ensures WithinLimits(ps, d) <==> d.year <= 9998 && d.day <= 30
    ensures AllComeBack(ps, d) <==> d.year <= 9998 && d.day <= 30
  {
    var y := FieldPlace(ps, Year4);
    var dd := FieldPlace(ps, Day2);
    assert forall i :: 0 <= i < |ps| && ps[i].Of? ==> FixedWidth(ps[i].field);
  }

  lemma FieldPlace(ps: seq<Piece>, f: Field) returns (i: nat)
    requires Of(f) in ps
    ensures i < |ps| && ps[i] == Of(f)
  {
    i :| 0 <= i < |ps| && ps[i] == Of(f);
  }

  /** For padded patterns and valid dates with a four-digit year, parsing undoes formatting except
      where the limits of `getInt` refuse: in the year 9999 and on the 31st. */
  lemma ParseUndoesFormat(ps: seq<Piece>, d: Date, strip: bool)
    requires CompletePattern(ps) && ValidDate(d) && FourDigitYear(d)
    ensures var r := ParseSpec(Format(d, Unparse(ps), strip), Unparse(ps), strip);
            && (r == Success(Some(PartsOf(d))) <==> d.year <= 9998 && d.day <= 30)
            && (r.Failure? <==> d.year == 9999 || d.day == 31)
  {
    PaddedIsComplete(ps);
    PaddedStops(ps, strip);
    StopsAreWhole(ps, d, strip);
    LimitsOfComplete(ps, d);
    ParseUndoesFormatExactly(ps, d, strip);
  }
}
