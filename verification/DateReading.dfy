/** What the fields of a date pattern show, and what `DateFormat.parse` makes of any text. */
module DateReading {
  import opened Strings
  import opened Wrappers
  import opened DateFormat
  import opened DateParse

  // ------------------------------------------------------------ what is shown

  /** The Chinese numeral of a number up to 19. */
  function Numeral(n: nat): string
    requires 1 <= n <= 19
  {
    var ones := "一二三四五六七八九";
    (if n < 10 then "" else "十") + (if n % 10 == 0 then "" else [ones[n % 10 - 1]])
  }

  /** Each month is called by its number. */
  lemma MonthIsItsNumber(m: nat)
    requires m < 12
    ensures MONTHS[m] == Numeral(m + 1) + "月"
  {
  }

  /** The number by which a reader knows the part of a date. */
  function Part(letter: char, d: Date): nat {
    if letter == 'y' then d.year
    else if letter == 'M' then d.month + 1
    else if letter == 'd' then d.day
    else if letter == 'H' then d.hour
    else if letter == 'm' then d.minute
    else d.second
  }

  /** A field shows the number of its part: as a Chinese numeral under `MMM`; by its last two digits under
      another name of two letters; without leading zeros otherwise. */
  lemma ShownIsItsNumber(f: Field, d: Date)
    requires ValidDate(d)
    ensures var s, n := Shown(f, d), Part(Name(f)[0], d);
            if Name(f) == "MMM" then 1 <= n <= 19 && s == Numeral(n) + "月"
            else
              && AllDigits(s) && s != ""
              && (|Name(f)| == 2 ==> |s| == 2 && NatOf(s) == n % 100)
              && (|Name(f)| != 2 ==> NatOf(s) == n && (s == "0" || s[0] != '0'))
  {
    assert Name(f)[0] == Letter(f);
    if f == MonthName {
      assert Name(f) == "MMM";
      MonthIsItsNumber(d.month);
    } else {
      ShownNumber(f, d);
      PadKeeps(Part(Letter(f), d) % 100);
      NatOfDecimal(Part(Letter(f), d));
      DecimalLength(Part(Letter(f), d));
    }
  }

  /** A number is shown padded to two digits or as it is. */
  lemma ShownNumber(f: Field, d: Date)
    requires ValidDate(d) && f != MonthName
    ensures Shown(f, d) == if Length(f) == 2 then Pad2(Part(Letter(f), d) % 100) else Decimal(Part(Letter(f), d))
  {
    if f == Year2 || f == Year4 {
      assert Part(Letter(f), d) == d.year;
    } else {
      assert Part(Letter(f), d) < 100;
    }
  }

  lemma PadKeeps(n: nat)
    requires n < 100
    ensures AllDigits(Pad2(n)) && NatOf(Pad2(n)) == n && |Pad2(n)| == 2
  {
    NatOfDecimal(n);
    DecimalLength(n);
    if n < 10 {
      var s := Pad2(n);
      assert s == ['0', Strings.Digit(n)] && s[..1] == "0" && "0"[..0] == "";
    }
  }

  // ---------------------------------------------------------------- what is read

  /** The largest number that a field takes. */
  function Largest(f: Field): nat {
    match Letter(f)
    case 'y' => if |Name(f)| == 4 then 9998 else 98
    case 'M' => 12
    case 'd' => 30
    case 'H' => 23
    case _ => 59
  }

  lemma {:induction false} LeadingZero(s: string)
    requires AllDigits(s) && s != "" && s[0] == '0'
    ensures NatOf(s) == NatOf(s[1..])
  {
    if 1 < |s| {
      LeadingZero(s[..|s| - 1]);
      assert s[1..][..|s[1..]| - 1] == s[..|s| - 1][1..];
    }
  }

  /** A field takes any digits of a number up to its largest, and nothing else; no digits or a lone zero are
      no number. */
  lemma FieldTakes(f: Field, segment: string)
    requires f != MonthName
    ensures GetInt(segment, Limit(f))
         == if !AllDigits(segment) then Failure(BadSegment)
            else if segment == "" || segment == "0" then Success(NaN)
            else if NatOf(segment) <= Largest(f) then Success(Val(NatOf(segment)))
            else Failure(BadSegment)
  {
    LimitIsNext(f);
    if segment != "" && segment[0] == '0' {
      assert segment == ['0'] + segment[1..];
      if AllDigits(segment) {
        LeadingZero(segment);
        assert AllDigits(segment[1..]);
      }
    }
  }

  lemma LimitIsNext(f: Field)
    requires f != MonthName
    ensures Limit(f) == Largest(f) + 1
  {
  }

  /** The same fields in the same places, with any separators between them. */
  predicate SameFields(ps: seq<Piece>, qs: seq<Piece>) {
    |ps| == |qs| && forall i :: 0 <= i < |ps| ==>
      if ps[i].Of? || qs[i].Of? then ps[i] == qs[i] else |ps[i].text| == |qs[i].text| && (ps[i].text == "'" <==> qs[i].text == "'")
  }

  lemma {:induction false} ReadAlike(ps: seq<Piece>, qs: seq<Piece>, value: string, r: Reading, strip: bool)
    requires SameFields(ps, qs)
    ensures ReadPieces(ps, value, r, strip) == ReadPieces(qs, value, r, strip)
    decreases |ps|
  {
    if ps != [] {
      var next := ReadPiece(ps[0], value, r, strip);
      if next.Success? {
        ReadAlike(ps[1..], qs[1..], value, next.value, strip);
      }
    }
  }

  /** Separators are passed over without a look: whatever text is read, they may as well be others. */
  lemma SeparatorsDoNotMatter(ps: seq<Piece>, qs: seq<Piece>, value: string, strip: bool)
    requires Plain(ps) && Plain(qs) && SameFields(ps, qs)
    ensures ParseSpec(value, Unparse(ps), strip) == ParseSpec(value, Unparse(qs), strip)
  {
    CutOfUnparse(ps);
    CutOfUnparse(qs);
    ReadAlike(ps, qs, value, Reading(0, DEFAULTS), strip);
  }

  predicate Mentions(ps: seq<Piece>, letter: char) {
    exists i :: 0 <= i < |ps| && ps[i].Of? && Letter(ps[i].field) == letter
  }

  /** What the pattern does not mention is not touched. */
  predicate Untouched(ps: seq<Piece>, a: Parts, b: Parts) {
    && (!Mentions(ps, 'y') ==> b.year == a.year) && (!Mentions(ps, 'M') ==> b.month == a.month)
    && (!Mentions(ps, 'd') ==> b.day == a.day) && (!Mentions(ps, 'H') ==> b.hour == a.hour)
    && (!Mentions(ps, 'm') ==> b.minute == a.minute) && (!Mentions(ps, 's') ==> b.second == a.second)
  }

  lemma ReadOneTouches(ps: seq<Piece>, value: string, r: Reading, strip: bool)
    requires ps != []
    ensures var next := ReadPiece(ps[0], value, r, strip);
            next.Success? ==> Untouched(ps, r.parts, next.value.parts)
  {
  }

  lemma {:induction false} ReadTouches(ps: seq<Piece>, value: string, r: Reading, strip: bool)
    ensures var all := ReadPieces(ps, value, r, strip);
            all.Success? ==> Untouched(ps, r.parts, all.value.parts)
    decreases |ps|
  {
    if ps != [] {
      var next := ReadPiece(ps[0], value, r, strip);
      ReadOneTouches(ps, value, r, strip);
      if next.Success? {
        ReadTouches(ps[1..], value, next.value, strip);
        forall letter | Mentions(ps[1..], letter)
          ensures Mentions(ps, letter)
        {
        }
      }
    }
  }

  /** A part for which the pattern has no field is that of the first of February 1970, at midnight. */
  lemma MissingParts(ps: seq<Piece>, value: string, strip: bool)
    requires Plain(ps) && value != ""
    ensures var r := ParseSpec(value, Unparse(ps), strip);
            r.Success? ==> r.value.Some? && Untouched(ps, Parts(Val(1970), Val(1), Val(1), Val(0), Val(0), Val(0)), r.value.value)
  {
    CutOfUnparse(ps);
    ReadTouches(ps, value, Reading(0, DEFAULTS), strip);
  }
}
