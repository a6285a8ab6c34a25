/** `TemplateRowRenderer.getRow` of gt_table.js: variables of a template are replaced one match
    after the other, each time at the first occurrence. The lemmas compare that with replacing all of
    them at once. */
module TemplateRow {
  import opened Strings

  predicate IsNameStart(c: char) {
    'a' <= c <= 'z' || 'A' <= c <= 'Z' || c == '_'
  }

  /** `\w` */
  predicate IsWord(c: char) {
    IsNameStart(c) || IsDigit(c)
  }

  function WordRun(s: string): (n: nat)
    ensures n <= |s|
  {
    if s != "" && IsWord(s[0]) then 1 + WordRun(s[1..]) else 0
  }

  /** Length of the match of `\$\{([a-zA-Z_]\w*)\}` at the start of `s`, 0 when there is none. */
  function VarLen(s: string): (n: nat)
    ensures n <= |s| && (n != 0 ==> 3 <= n && s[0] == '$' && s[1] == '{' && s[n - 1] == '}')
  {
    if 2 < |s| && s[0] == '$' && s[1] == '{' && IsNameStart(s[2]) then
      var n := 2 + WordRun(s[2..]);
      if n < |s| && s[n] == '}' then n + 1 else 0
    else 0
  }

  /** A template as the pattern cuts it: single characters and variables. */
  datatype Piece = Lit(c: char) | Var(name: string)

  function Pieces(s: string): seq<Piece> {
    if s == "" then []
    else
      var n := VarLen(s);
      if n == 0 then [Lit(s[0])] + Pieces(s[1..]) else [Var(s[2..n - 1])] + Pieces(s[n..])
  }

  function Marker(name: string): string {
    "${" + name + "}"
  }

  function PieceText(p: Piece): string {
    match p
    case Lit(c) => [c]
    case Var(name) => Marker(name)
  }

  function Unparse(ps: seq<Piece>): string {
    if ps == [] then "" else PieceText(ps[0]) + Unparse(ps[1..])
  }

  /** The variables of `text.match(varPattern)`, repeated ones as often as they occur. */
  function Names(ps: seq<Piece>): seq<string> {
    if ps == [] then [] else (if ps[0].Var? then [ps[0].name] else []) + Names(ps[1..])
  }

  /** `values` gives the text of a variable, after `process` if there is one. */
  function ReplaceAll(s: string, names: seq<string>, values: string -> string): string
    decreases |names|
  {
    if names == [] then s
    else ReplaceAll(Replace(s, Marker(names[0]), values(names[0])), names[1..], values)
  }

  function GetRow(text: string, values: string -> string): string {
    ReplaceAll(text, Names(Pieces(text)), values)
  }

  /** The loop of `getRow`. */
  method GetRowLoop(text: string, values: string -> string) returns (result: string)
    ensures result == GetRow(text, values)
  {
    var names := Names(Pieces(text));
    if names == [] {
      return text;
    }
    result := text;
    for i := 0 to |names|
      invariant ReplaceAll(result, names[i..], values) == GetRow(text, values)
    {
      assert names[i..][1..] == names[i + 1..];
      result := Replace(result, Marker(names[i]), values(names[i]));
    }
  }

  /** What a piece becomes. */
  function Become(p: Piece, values: string -> string): string {
    match p
    case Lit(c) => [c]
    case Var(name) => values(name)
  }

  /** All variables at once. */
  function Substitute(ps: seq<Piece>, values: string -> string): string {
    if ps == [] then ""
    else Become(ps[0], values) + Substitute(ps[1..], values)
  }

  lemma MarkerText(s: string)
    requires VarLen(s) != 0
    ensures Marker(s[2..VarLen(s) - 1]) + s[VarLen(s)..] == s
  {
    var n := VarLen(s);
    assert Marker(s[2..n - 1]) == s[..n];
  }

  lemma {:induction false} UnparsePieces(s: string)
    ensures Unparse(Pieces(s)) == s
    decreases |s|
  {
    if s != "" {
      var n := VarLen(s);
      if n == 0 {
        UnparsePieces(s[1..]);
      } else {
        UnparsePieces(s[n..]);
        MarkerText(s);
      }
    }
  }

  predicate IsName(name: string) {
    name != "" && IsNameStart(name[0]) && forall i :: 0 <= i < |name| ==> IsWord(name[i])
  }

  lemma {:induction false} WordRunOver(name: string, rest: string)
    requires (forall i :: 0 <= i < |name| ==> IsWord(name[i])) && (rest == "" || !IsWord(rest[0]))
    ensures WordRun(name + rest) == |name|
  {
    if name != "" {
      WordRunOver(name[1..], rest);
      assert (name + rest)[1..] == name[1..] + rest;
    } else {
      assert name + rest == rest;
    }
  }

  /** The pattern matches a variable as a whole. */
  lemma VarLenOfMarker(name: string, rest: string)
    requires IsName(name)
    ensures VarLen(Marker(name) + rest) == |Marker(name)|
  {
    var s := Marker(name) + rest;
    WordRunOver(name, "}" + rest);
    assert s[2..] == name + ("}" + rest);
    assert s[2] == name[0] && s[2 + |name|] == '}';
  }

  predicate Template(ps: seq<Piece>) {
    forall i :: 0 <= i < |ps| ==> if ps[i].Var? then IsName(ps[i].name) else ps[i].c != '$'
  }

  /** The pattern finds exactly the variables of a template. */
  lemma {:induction false} PiecesOfUnparse(ps: seq<Piece>)
    requires Template(ps)
    ensures Pieces(Unparse(ps)) == ps
  {
    if ps != [] {
      var rest := Unparse(ps[1..]);
      PiecesOfUnparse(ps[1..]);
      match ps[0]
      case Lit(c) =>
        assert ([c] + rest)[1..] == rest;
      case Var(name) =>
        VarLenOfMarker(name, rest);
        assert (Marker(name) + rest)[2..|Marker(name)| - 1] == name;
        assert (Marker(name) + rest)[|Marker(name)|..] == rest;
    }
  }

  predicate NoDollar(s: string) {
    forall i :: 0 <= i < |s| ==> s[i] != '$'
  }

  /** None of the sequences that `replace` expands in a value: `$` with `$`, `&`, a quote or a digit. */
  predicate Literal(value: string) {
    forall i :: 0 <= i < |value| - 1 && value[i] == '$' ==> value[i + 1] !in "$&`'0123456789"
  }

  /** The marker of a variable does not occur in what the pieces before it have become. */
  predicate InPlace(ps: seq<Piece>, values: string -> string) {
    forall i :: 0 <= i < |ps| && ps[i].Var? ==>
      !Occurs(Marker(ps[i].name), Substitute(ps[..i], values))
  }

  predicate AllLiteral(ps: seq<Piece>, values: string -> string) {
    forall i :: 0 <= i < |ps| && ps[i].Var? ==> Literal(values(ps[i].name))
  }

  lemma {:induction false} WordRunIsWord(s: string)
    ensures forall i :: 0 <= i < WordRun(s) ==> IsWord(s[i])
  {
    if s != "" && IsWord(s[0]) {
      WordRunIsWord(s[1..]);
      assert forall i :: 1 <= i < WordRun(s) ==> s[i] == s[1..][i - 1];
    }
  }

  /** Letters, digits and `_`, without a digit in front. */
  predicate LegalName(name: string) {
    && name != "" && !('0' <= name[0] <= '9')
    && forall i :: 0 <= i < |name| ==>
         'a' <= name[i] <= 'z' || 'A' <= name[i] <= 'Z' || '0' <= name[i] <= '9' || name[i] == '_'
  }

  /** A piece is a variable exactly when the marker of a legal name starts there. */
  predicate IsRight(p: Piece, text: string, name: string) {
    match p
    case Var(v) => LegalName(v)
    case Lit(_) => LegalName(name) ==> !(Marker(name) <= text)
  }

  lemma FirstIsRight(s: string, name: string)
    requires s != ""
    ensures IsRight(Pieces(s)[0], s, name)
  {
    var n := VarLen(s);
    if n == 0 {
      if LegalName(name) && Marker(name) <= s {
        assert s == Marker(name) + s[|Marker(name)|..];
        VarLenOfMarker(name, s[|Marker(name)|..]);
      }
    } else {
      WordRunIsWord(s[2..]);
      assert forall i :: 2 <= i < n - 1 ==> s[i] == s[2..][i - 2];
    }
  }

  /** Every variable of a text is found, from left to right, and nothing else. */
  lemma {:induction false} PiecesAreRight(s: string, i: nat, name: string)
    requires i < |Pieces(s)|
    ensures IsRight(Pieces(s)[i], Unparse(Pieces(s)[i..]), name)
    decreases |s|
  {
    var ps := Pieces(s);
    if i == 0 {
      FirstIsRight(s, name);
      UnparsePieces(s);
      assert ps[0..] == ps;
    } else {
      var rest := s[if VarLen(s) == 0 then 1 else VarLen(s)..];
      PiecesAreRight(rest, i - 1, name);
      assert ps[i..] == Pieces(rest)[i - 1..];
    }
  }

  predicate NamesHaveNoDollar(ps: seq<Piece>) {
    forall i :: 0 <= i < |ps| && ps[i].Var? ==> NoDollar(ps[i].name)
  }

  lemma NameHasNoDollar(s: string)
    requires VarLen(s) != 0
    ensures NoDollar(s[2..VarLen(s) - 1])
  {
    WordRunIsWord(s[2..]);
    assert forall i :: 0 <= i < VarLen(s) - 3 ==> s[2..VarLen(s) - 1][i] == s[2..][i];
  }

  lemma {:induction false} PiecesHaveNames(s: string)
    ensures NamesHaveNoDollar(Pieces(s))
    decreases |s|
  {
    if s != "" {
      var n := VarLen(s);
      PiecesHaveNames(s[if n == 0 then 1 else n..]);
      if n != 0 { NameHasNoDollar(s); }
    }
  }

  /** The next replacement hits the next variable, because its marker is nowhere before it. */
  lemma ReplaceNext(done: string, name: string, rest: string, value: string)
    requires NoDollar(name) && !Occurs(Marker(name), done)
    ensures Replace(done + (Marker(name) + rest), Marker(name), value) == done + value + rest
  {
    ReplaceFirst(done, Marker(name), rest, value);
  }

  lemma ReplaceHead(s: string, name: string, names: seq<string>, values: string -> string)
    ensures ReplaceAll(s, [name] + names, values) == ReplaceAll(Replace(s, Marker(name), values(name)), names, values)
  {
    assert ([name] + names)[1..] == names;
  }

  lemma {:induction false} SubstituteSnoc(ps: seq<Piece>, p: Piece, values: string -> string)
    ensures Substitute(ps + [p], values) == Substitute(ps, values) + Become(p, values)
  {
    if ps == [] {
      assert ps + [p] == [p] && Become(p, values) + "" == Become(p, values);
    } else {
      assert (ps + [p])[1..] == ps[1..] + [p];
      SubstituteSnoc(ps[1..], p, values);
      Associate(Become(ps[0], values), Substitute(ps[1..], values), Become(p, values));
    }
  }

  lemma SubstituteNext(ps: seq<Piece>, i: nat, values: string -> string)
    requires i < |ps|
    ensures Substitute(ps[..i + 1], values) == Substitute(ps[..i], values) + Become(ps[i], values)
  {
    assert ps[..i + 1] == ps[..i] + [ps[i]];
    SubstituteSnoc(ps[..i], ps[i], values);
  }

  lemma UnparseNext(ps: seq<Piece>, i: nat)
    requires i < |ps|
    ensures Unparse(ps[i..]) == PieceText(ps[i]) + Unparse(ps[i + 1..])
    ensures Names(ps[i..]) == (if ps[i].Var? then [ps[i].name] else []) + Names(ps[i + 1..])
  {
    assert ps[i..][1..] == ps[i + 1..];
  }

  lemma {:induction false} ReplaceRest(ps: seq<Piece>, i: nat, values: string -> string)
    requires i <= |ps| && NamesHaveNoDollar(ps) && InPlace(ps, values)
    ensures ReplaceAll(Substitute(ps[..i], values) + Unparse(ps[i..]), Names(ps[i..]), values) == Substitute(ps, values)
    decreases |ps| - i
  {
    var done := Substitute(ps[..i], values);
    if i == |ps| {
      assert ps[..i] == ps && done + "" == done;
    } else {
      var rest := Unparse(ps[i + 1..]);
      ReplaceRest(ps, i + 1, values);
      SubstituteNext(ps, i, values);
      UnparseNext(ps, i);
      match ps[i]
      case Lit(c) =>
        Associate(done, [c], rest);
        assert [] + Names(ps[i + 1..]) == Names(ps[i + 1..]);
      case Var(name) =>
        ReplaceHead(done + (Marker(name) + rest), name, Names(ps[i + 1..]), values);
        ReplaceNext(done, name, rest, values(name));
    }
  }

  /** One replacement per match, each at the first occurrence, is simultaneous substitution, for
      repeated variables too, as long as no marker occurs before its variable. */
  lemma GetRowSubstitutes(text: string, values: string -> string)
    requires InPlace(Pieces(text), values) && AllLiteral(Pieces(text), values)
    ensures GetRow(text, values) == Substitute(Pieces(text), values)
  {
    var ps := Pieces(text);
    UnparsePieces(text);
    PiecesHaveNames(text);
    ReplaceRest(ps, 0, values);
    assert ps[..0] == [] && ps[0..] == ps;
    assert "" + text == text;
  }

  lemma {:induction false} NoDollarBecomes(ps: seq<Piece>, values: string -> string)
    requires forall i :: 0 <= i < |ps| ==> NoDollar(Become(ps[i], values))
    ensures NoDollar(Substitute(ps, values))
  {
    if ps != [] {
      assert NoDollar(Become(ps[0], values));
      NoDollarBecomes(ps[1..], values);
    }
  }

  lemma {:induction false} NoMarkerOccurs(name: string, s: string)
    requires NoDollar(s)
    ensures !Occurs(Marker(name), s)
  {
    assert Marker(name)[0] == '$';
    if s != "" {
      NoMarkerOccurs(name, s[1..]);
    }
  }

  /** So it is when neither the literal text nor a value contains `$`. */
  lemma NoDollarIsInPlace(ps: seq<Piece>, values: string -> string)
    requires forall i :: 0 <= i < |ps| ==> NoDollar(Become(ps[i], values))
    ensures InPlace(ps, values) && AllLiteral(ps, values)
  {
    forall i | 0 <= i < |ps| && ps[i].Var?
      ensures Literal(values(ps[i].name)) && !Occurs(Marker(ps[i].name), Substitute(ps[..i], values))
    {
      assert NoDollar(Become(ps[i], values));
      NoDollarBecomes(ps[..i], values);
      NoMarkerOccurs(ps[i].name, Substitute(ps[..i], values));
    }
  }

  // --------------------------------------------------------- the exact condition

  /** A value with a text that does not start like a variable. */
  predicate Solid(value: string) {
    value != "" && value[0] != '$'
  }

  predicate AllSolid(names: seq<string>, values: string -> string) {
    forall i :: 0 <= i < |names| ==> Solid(values(names[i]))
  }

  /** Up to `p` the texts agree, and there only the second has a `$`. */
  predicate PartedAt(t: string, s: string, p: nat) {
    p < |t| && p < |s| && t[..p] == s[..p] && t[p] != '$' && s[p] == '$'
  }

  predicate Parted(t: string, s: string) {
    exists p :: 0 <= p < |t| && PartedAt(t, s, p)
  }

  /** Putting a solid value where a `$` stood parts the texts there. */
  lemma PartHere(t: string, s: string, q: nat, value: string, rest: string)
    requires q <= |t| && q < |s| && t[..q] == s[..q] && s[q] == '$' && Solid(value)
    ensures PartedAt(t[..q] + value + rest, s, q)
  {
    var u := t[..q] + value + rest;
    assert u[..q] == t[..q] && u[q] == value[0];
  }

  /** Parted texts stay parted, whatever variable is replaced. */
  lemma StayParted(t: string, s: string, name: string, value: string)
    requires Parted(t, s) && Solid(value)
    ensures Parted(Replace(t, Marker(name), value), s)
  {
    var p: nat :| p < |t| && PartedAt(t, s, p);
    var m := Marker(name);
    if !Occurs(m, t) {
      ReplaceNowhere(t, m, value);
    } else {
      var q := ReplacePlace(t, m, value);
      DollarAt(t, name, q);
      if q < p {
        PartHere(t, s, q, value, t[q + |m|..]);
      } else {
        PartedBefore(t, s, p, q, value + t[q + |m|..]);
        Associate(t[..q], value, t[q + |m|..]);
      }
    }
  }

  lemma DollarAt(t: string, name: string, q: nat)
    requires q + |Marker(name)| <= |t| && t[q..q + |Marker(name)|] == Marker(name)
    ensures q < |t| && t[q] == '$'
  {
    assert Marker(name)[0] == '$' && t[q] == t[q..q + |Marker(name)|][0];
  }

  lemma PartedBefore(t: string, s: string, p: nat, q: nat, rest: string)
    requires PartedAt(t, s, p) && p < q <= |t|
    ensures PartedAt(t[..q] + rest, s, p)
  {
    var u := t[..q] + rest;
    assert u[..p] == t[..p] && u[p] == t[p];
  }

  lemma {:induction false} StayPartedAll(t: string, s: string, names: seq<string>, values: string -> string)
    requires Parted(t, s) && AllSolid(names, values)
    ensures Parted(ReplaceAll(t, names, values), s)
    decreases |names|
  {
    if names != [] {
      StayParted(t, s, names[0], values(names[0]));
      assert forall i :: 0 <= i < |names[1..]| ==> names[1..][i] == names[i + 1];
      StayPartedAll(Replace(t, Marker(names[0]), values(names[0])), s, names[1..], values);
    }
  }

  lemma {:induction false} SubstituteSplit(ps: seq<Piece>, i: nat, values: string -> string)
    requires i <= |ps|
    ensures Substitute(ps[..i], values) <= Substitute(ps, values)
    decreases |ps| - i
  {
    if i == |ps| {
      assert ps[..i] == ps;
    } else {
      SubstituteNext(ps, i, values);
      SubstituteSplit(ps, i + 1, values);
    }
  }

  /** A variable out of place parts the text from the substituted one. */
  lemma MisplacedParts(done: string, name: string, rest: string, value: string, all: string)
    requires NoDollar(name) && Occurs(Marker(name), done) && done <= all && Solid(value)
    ensures Parted(Replace(done + (Marker(name) + rest), Marker(name), value), all)
  {
    var m := Marker(name);
    ReplaceInside(done, m, rest, value);
    var q := ReplacePlace(done, m, value);
    DollarAt(done, name, q);
    assert done[..q] == all[..q] && all[q] == done[q];
    PartHere(done, all, q, value, done[q + |m|..] + (m + rest));
    Associate(done[..q] + value, done[q + |m|..], m + rest);
  }

  /** From piece `i` on, every variable is in place. */
  predicate InPlaceFrom(ps: seq<Piece>, i: nat, values: string -> string) {
    forall j :: i <= j < |ps| && ps[j].Var? ==> !Occurs(Marker(ps[j].name), Substitute(ps[..j], values))
  }

  lemma {:induction false} ReplaceRestExactly(ps: seq<Piece>, i: nat, values: string -> string)
    requires i <= |ps| && NamesHaveNoDollar(ps) && AllSolid(Names(ps[i..]), values)
    ensures ReplaceAll(Substitute(ps[..i], values) + Unparse(ps[i..]), Names(ps[i..]), values) == Substitute(ps, values)
       <==> InPlaceFrom(ps, i, values)
    decreases |ps| - i
  {
    var done := Substitute(ps[..i], values);
    if i == |ps| {
      assert ps[..i] == ps && done + "" == done;
    } else {
      var rest, names := Unparse(ps[i + 1..]), Names(ps[i + 1..]);
      SubstituteNext(ps, i, values);
      UnparseNext(ps, i);
      match ps[i]
      case Lit(c) =>
        assert [] + names == names;
        ReplaceRestExactly(ps, i + 1, values);
        Associate(done, [c], rest);
      case Var(name) =>
        SolidTail(name, names, values);
        ReplaceHead(done + (Marker(name) + rest), name, names, values);
        if Occurs(Marker(name), done) {
          SubstituteSplit(ps, i, values);
          MisplacedParts(done, name, rest, values(name), Substitute(ps, values));
          StayPartedAll(Replace(done + (Marker(name) + rest), Marker(name), values(name)), Substitute(ps, values), names, values);
          assert !InPlaceFrom(ps, i, values);
        } else {
          ReplaceRestExactly(ps, i + 1, values);
          ReplaceNext(done, name, rest, values(name));
        }
    }
  }

  lemma SolidTail(name: string, names: seq<string>, values: string -> string)
    requires AllSolid([name] + names, values)
    ensures Solid(values(name)) && AllSolid(names, values)
  {
    assert ([name] + names)[0] == name;
    assert forall i :: 0 <= i < |names| ==> names[i] == ([name] + names)[i + 1];
  }

  /** For values that have a text and do not start like a variable, the replacements are simultaneous
      substitution if and only if every variable is in place. */
  lemma GetRowSubstitutesExactly(text: string, values: string -> string)
    requires AllSolid(Names(Pieces(text)), values) && AllLiteral(Pieces(text), values)
    ensures GetRow(text, values) == Substitute(Pieces(text), values) <==> InPlace(Pieces(text), values)
  {
    var ps := Pieces(text);
    UnparsePieces(text);
    PiecesHaveNames(text);
    assert ps[..0] == [] && ps[0..] == ps;
    ReplaceRestExactly(ps, 0, values);
    assert "" + text == text;
  }

  /** A value that spells a later variable takes the place of that variable: its text is replaced
      instead, and the variable itself stays. */
  lemma ValueTakesThePlace(a: string, b: string, values: string -> string)
    requires a != b && values(a) == Marker(b)
    ensures ReplaceAll(Unparse([Var(a), Var(b)]), Names([Var(a), Var(b)]), values) == values(b) + Marker(b)
    ensures Substitute([Var(a), Var(b)], values) == Marker(b) + values(b)
  {
    var ps := [Var(a), Var(b)];
    assert ps[1..] == [Var(b)];
    assert Unparse([Var(b)]) == Marker(b) + "" == Marker(b);
    assert Names(ps) == [a] + Names([Var(b)]) == [a, b];
    assert Unparse(ps) == Marker(a) + Marker(b);
    ReplaceHead(Unparse(ps), a, [b], values);
    ReplaceHere(Marker(a), Marker(b), Marker(b));
    ReplaceHead(Marker(b) + Marker(b), b, [], values);
    ReplaceHere(Marker(b), Marker(b), values(b));
    assert Substitute([Var(b)], values) == values(b) + "" == values(b);
  }

  /** An empty value can hide that: the later variable is not in place, yet nothing is to be seen of it. */
  lemma EmptyValueHides(a: string, b: string, values: string -> string)
    requires a != b && values(a) == Marker(b) && values(b) == ""
    ensures var ps := [Var(a), Var(b)];
            ReplaceAll(Unparse(ps), Names(ps), values) == Substitute(ps, values) && !InPlace(ps, values)
  {
    var ps := [Var(a), Var(b)];
    ValueTakesThePlace(a, b, values);
    assert "" + Marker(b) == Marker(b) + "";
    assert ps[..1] == [Var(a)] && [Var(a)][1..] == [];
    assert Substitute([Var(a)], values) == Marker(b) + "" == Marker(b);
    assert ps[1].Var? && Occurs(Marker(ps[1].name), Substitute(ps[..1], values));
  }
}
