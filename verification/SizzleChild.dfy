/** `:nth-child` of jquery-1.3.2.js: the formula, the arithmetic, and the index cached on nodes. */
module SizzleChild {
  import opened Division
  import opened Strings
  import opened Wrappers

  // ---------------------------------------------------------- reading a formula

  /** What `match[2]` and `match[3]` become; `last` is None for NaN. */
  datatype Formula = Formula(first: int, last: Option<int>)

  /** The substitutions for `even`, `odd` and a plain number. */
  function Normalize(m: string): string {
    if m == "even" then "2n"
    else if m == "odd" then "2n+1"
    else if AllDigits(m) then "0n+" + m
    else m
  }

  /** `/(-?)(\d*)n((?:\+|-)?\d*)/` at the start of `s`. */
  function MatchHere(s: string): Option<Formula> {
    var sign := if s != [] && s[0] == '-' then 1 else 0;
    var k := sign + DigitRun(s[sign..]);
    if k < |s| && s[k] == 'n' then
      Some(Formula(StepOf(sign == 1, s[sign..][..k - sign]), LastOf(s[k + 1..])))
    else None
  }

  /** `(test[1] + (test[2] || 1)) - 0` */
  function StepOf(negative: bool, digits: string): int
    requires AllDigits(digits)
  {
    var n := if digits == [] then 1 else NatOf(digits);
    if negative then -n else n
  }

  /** `test[3] - 0`, where test[3] is the longest `(?:\+|-)?\d*` at the start of `s`. */
  function LastOf(s: string): Option<int> {
    var sign := if s != [] && (s[0] == '+' || s[0] == '-') then 1 else 0;
    var digits := s[sign..][..DigitRun(s[sign..])];
    if sign == 1 && digits == [] then None
    else if sign == 1 && s[0] == '-' then Some(-NatOf(digits))
    else Some(NatOf(digits))
  }

  /** `exec`: the leftmost match; None is the TypeError that a formula without `n` ends in. */
  function Exec(s: string): Option<Formula> {
    match MatchHere(s)
    case Some(f) => Some(f)
    case None => if s == [] then None else Exec(s[1..])
  }

  function ReadFormula(m: string): Option<Formula> {
    Exec(Normalize(m))
  }

  /** The forms that Selectors section 6.6.5.2 names. */
  datatype Form =
    | Even
    | Odd
    | Index(digits: string)
    | Steps(negative: bool, digits: string, offset: Offset)

  datatype Offset = NoOffset | Offset(minus: bool, digits: string)

  predicate ValidForm(f: Form) {
    match f
    case Index(digits) => AllDigits(digits) && digits != []
    case Steps(_, digits, offset) =>
      AllDigits(digits) && (offset.Offset? ==> AllDigits(offset.digits) && offset.digits != [])
    case _ => true
  }

  function Render(f: Form): string {
    match f
    case Even => "even"
    case Odd => "odd"
    case Index(digits) => digits
    case Steps(negative, digits, offset) =>
      var unsigned := digits + ("n" + RenderOffset(offset));
      if negative then "-" + unsigned else unsigned
  }

  function RenderOffset(o: Offset): string {
    match o
    case NoOffset => ""
    case Offset(minus, digits) => (if minus then "-" else "+") + digits
  }

  /** The pair (a, b) of a form an+b. */
  function Meaning(f: Form): (int, int)
    requires ValidForm(f)
  {
    match f
    case Even => (2, 0)
    case Odd => (2, 1)
    case Index(digits) => (0, NatOf(digits))
    case Steps(negative, digits, offset) =>
      var step := if digits == "" then 1 else NatOf(digits);
      (if negative then -step else step, OffsetValue(offset))
  }

  function OffsetValue(o: Offset): int
    requires o.Offset? ==> AllDigits(o.digits)
  {
    if o.NoOffset? then 0 else if o.minus then -NatOf(o.digits) else NatOf(o.digits)
  }

  lemma LastOfOffset(o: Offset)
    requires o.Offset? ==> AllDigits(o.digits) && o.digits != []
    ensures LastOf(RenderOffset(o)) == Some(OffsetValue(o))
  {
    if o.Offset? {
      var s := RenderOffset(o);
      assert s[1..] == o.digits;
      assert o.digits + [] == o.digits;
      RunOfDigits(o.digits, []);
      assert o.digits[..|o.digits|] == o.digits;
    }
  }

  lemma MatchUnsigned(digits: string, offset: string)
    requires AllDigits(digits)
    ensures var t := digits + ("n" + offset);
            var k := DigitRun(t);
            k == |digits| && k < |t| && t[k] == 'n' && t[..k] == digits && t[k + 1..] == offset
  {
    RunOfDigits(digits, "n" + offset);
  }

  lemma MatchSigned(s: string, sign: nat, digits: string, offset: string)
    requires AllDigits(digits) && sign <= |s| && s[sign..] == digits + ("n" + offset)
    requires sign == if s != [] && s[0] == '-' then 1 else 0
    ensures MatchHere(s) == Some(Formula(StepOf(sign == 1, digits), LastOf(offset)))
  {
    MatchUnsigned(digits, offset);
    var t := s[sign..];
    assert s[sign + |digits|] == t[|digits|];
    assert s[sign + |digits| + 1..] == t[|digits| + 1..];
  }

  /** A step written as an optional sign, digits, `n` and an offset is matched where it starts. */
  lemma MatchSteps(negative: bool, digits: string, offset: Offset)
    requires ValidForm(Steps(negative, digits, offset))
    ensures MatchHere(Render(Steps(negative, digits, offset)))
         == Some(Formula(StepOf(negative, digits), Some(OffsetValue(offset))))
  {
    var tail := RenderOffset(offset);
    var s := Render(Steps(negative, digits, offset));
    MatchSigned(s, if negative then 1 else 0, digits, tail);
    LastOfOffset(offset);
  }

  /** Every form is read as the pair it means. */
  lemma FormIsRead(f: Form)
    requires ValidForm(f)
    ensures ReadFormula(Render(f)) == Some(Formula(Meaning(f).0, Some(Meaning(f).1)))
  {
    match f
    case Even => WordIsRead(f, NoOffset);
    case Odd => WordIsRead(f, Offset(false, "1"));
    case Index(digits) => IndexIsRead(digits);
    case Steps(negative, digits, offset) =>
      StepsAreNormal(negative, digits, offset);
      MatchSteps(negative, digits, offset);
  }

  lemma IndexIsRead(digits: string)
    requires AllDigits(digits) && digits != []
    ensures ReadFormula(digits) == Some(Formula(0, Some(NatOf(digits))))
  {
    NotAWord(digits);
    RenderIndex(digits);
    MatchSteps(false, "0", Offset(false, digits));
  }

  lemma RenderIndex(digits: string)
    ensures Render(Steps(false, "0", Offset(false, digits))) == "0n+" + digits
  {
    assert "0" + ("n" + ("+" + digits)) == "0n+" + digits;
  }

  lemma WordIsRead(f: Form, offset: Offset)
    requires (f == Even && offset == NoOffset) || (f == Odd && offset == Offset(false, "1"))
    ensures ReadFormula(Render(f)) == Some(Formula(Meaning(f).0, Some(Meaning(f).1)))
  {
    MatchSteps(false, "2", offset);
    WordIsNormalized(f, offset);
  }

  lemma WordIsNormalized(f: Form, offset: Offset)
    requires (f == Even && offset == NoOffset) || (f == Odd && offset == Offset(false, "1"))
    ensures Normalize(Render(f)) == Render(Steps(false, "2", offset))
  {
    if f == Even {
      assert "2" + ("n" + "") == "2n";
    } else {
      assert "2" + ("n" + ("+" + "1")) == "2n+1";
    }
  }

  lemma StepsAreNormal(negative: bool, digits: string, offset: Offset)
    requires ValidForm(Steps(negative, digits, offset))
    ensures Normalize(Render(Steps(negative, digits, offset))) == Render(Steps(negative, digits, offset))
  {
    var s := Render(Steps(negative, digits, offset));
    var k := (if negative then 1 else 0) + |digits|;
    assert s[k] == 'n' && !IsDigit(s[k]);
    assert s[0] != 'e' && s[0] != 'o';
  }

  lemma NotAWord(digits: string)
    requires AllDigits(digits)
    ensures digits != "even" && digits != "odd"
  {
    assert digits == "even" ==> !IsDigit(digits[0]);
    assert digits == "odd" ==> !IsDigit(digits[0]);
  }

  /** `exec` takes the leftmost match, if there is one. */
  lemma {:induction false} ExecIsLeftmost(s: string) returns (k: nat)
    ensures k <= |s| && (forall j :: 0 <= j < k ==> MatchHere(s[j..]) == None)
    ensures if k < |s| then Exec(s) == MatchHere(s[k..]) != None else Exec(s) == None
  {
    k := 0;
    assert s[0..] == s;
    if MatchHere(s) == None && s != [] {
      var i := ExecIsLeftmost(s[1..]);
      k := i + 1;
      forall j | 0 <= j < k
        ensures MatchHere(s[j..]) == None
      {
        if 0 < j { assert s[1..][j - 1..] == s[j..]; }
      }
      assert s[1..][i..] == s[k..];
    }
  }

  lemma {:induction false} ExecNeedsN(s: string)
    ensures Exec(s) == None <==> 'n' !in s
  {
    if s != [] {
      ExecNeedsN(s[1..]);
      assert s == [s[0]] + s[1..];
    }
  }

  /** A formula can be read unless it has no `n` and is neither `odd` nor a row of digits. */
  lemma UnreadableFormulas(m: string)
    ensures ReadFormula(m) == None <==> 'n' !in m && m != "odd" && !AllDigits(m)
  {
    ExecNeedsN(Normalize(m));
    if m == "even" {
      assert "even"[3] == 'n' && "2n"[1] == 'n';
    } else if m == "odd" {
      assert "2n+1"[1] == 'n';
    } else if AllDigits(m) {
      assert ("0n+" + m)[1] == 'n';
    }
  }

  // --------------------------------------------------------------- the arithmetic

  /** The remainder of JavaScript, which has the sign of the dividend. */
  function JsRem(a: int, b: int): int
    requires b != 0
  {
    var m := if b < 0 then -b else b;
    if a < 0 then -(-a % m) else a % m
  }

  /** `a / b >= 0` for the real quotient. */
  predicate QuotientNotNegative(a: int, b: int)
    requires b != 0
  {
    a == 0 || (0 < a <==> 0 < b)
  }

  predicate Accepts(first: int, last: int, index: int) {
    var diff := index - last;
    if first == 0 then diff == 0
    else JsRem(diff, first) == 0 && QuotientNotNegative(diff, first)
  }

  /** Some n >= 0 gives index = a*n + b. */
  ghost predicate InProgression(a: int, b: int, index: int) {
    exists n: nat :: index == a * n + b
  }

  lemma Multiple(m: int, d: int)
    requires 0 < m && 0 <= d
    ensures d % m == 0 <==> exists n: nat :: d == m * n
  {
    if d % m == 0 {
      assert d == m * (d / m);
    }
    forall n: nat | d == m * n
      ensures d % m == 0
    {
      QuotientIsUnique(d, m, n, 0);
    }
  }

  /** The test on remainder and quotient is membership in the progression, for any signs. */
  lemma AcceptsProgression(a: int, b: int, index: int)
    ensures Accepts(a, b, index) <==> InProgression(a, b, index)
  {
    var diff := index - b;
    if a == 0 {
      assert diff == 0 ==> index == a * 0 + b;
    } else {
      var m, d := if a < 0 then -a else a, if diff < 0 then -diff else diff;
      Multiple(m, d);
      if Accepts(a, b, index) {
        var n: nat :| d == m * n;
        assert index == a * n + b;
      }
      forall n: nat | index == a * n + b
        ensures Accepts(a, b, index)
      {
        assert d == m * n;
      }
    }
  }

  // ------------------------------------------------------------ the cached index

  /** A DOM node. `nodeIndex` 0 stands for undefined: the filter counts from 1. The links do not
      change while a filter runs; `children` lists what firstChild and nextSibling chain. */
  class Node {
    const nodeType: int
    const parentNode: Node?
    const firstChild: Node?
    const nextSibling: Node?
    ghost const children: seq<Node>
    var sizcache: Option<nat>
    var nodeIndex: nat
  }

  ghost predicate Family(parent: Node) {
    && parent.firstChild == (if parent.children == [] then null else parent.children[0])
    && (forall k :: 0 <= k < |parent.children| ==>
          && parent.children[k].parentNode == parent
          && parent.children[k].nextSibling == if k + 1 < |parent.children| then parent.children[k + 1] else null)
    && (forall j, k :: 0 <= j < k < |parent.children| ==> parent.children[j] != parent.children[k])
  }

  /** The number of elements among the first `k` nodes. */
  ghost function ElementsBefore(nodes: seq<Node>, k: nat): nat
    requires k <= |nodes|
  {
    if k == 0 then 0 else ElementsBefore(nodes, k - 1) + if nodes[k - 1].nodeType == 1 then 1 else 0
  }

  /** The places before `k` where elements stand. */
  ghost function ElementPlaces(nodes: seq<Node>, k: nat): set<nat>
    requires k <= |nodes|
  {
    set i: nat | i < k && nodes[i].nodeType == 1
  }

  lemma {:induction false} ElementsAreCounted(nodes: seq<Node>, k: nat)
    requires k <= |nodes|
    ensures ElementsBefore(nodes, k) == |ElementPlaces(nodes, k)|
  {
    if k != 0 {
      ElementsAreCounted(nodes, k - 1);
      var before := ElementPlaces(nodes, k - 1);
      assert ElementPlaces(nodes, k) == if nodes[k - 1].nodeType == 1 then before + {k - 1} else before;
    }
  }

  /** The position of an element is one more than the number of elements before it. */
  lemma PositionCounts(elem: Node, k: nat)
    requires elem.parentNode != null && Family(elem.parentNode)
    requires k < |elem.parentNode.children| && elem.parentNode.children[k] == elem
    ensures Position(elem) == |ElementPlaces(elem.parentNode.children, k)| + 1
  {
    ElementsAreCounted(elem.parentNode.children, k);
  }

  /** One plus the number of element siblings that precede `elem`. */
  ghost function Position(elem: Node): nat
    requires elem.parentNode != null && Family(elem.parentNode) && elem in elem.parentNode.children
  {
    var k :| 0 <= k < |elem.parentNode.children| && elem.parentNode.children[k] == elem;
    ElementsBefore(elem.parentNode.children, k) + 1
  }

  ghost predicate Numbered(parent: Node, upTo: nat)
    requires upTo <= |parent.children|
    reads parent.children`nodeIndex
  {
    forall k :: 0 <= k < upTo && parent.children[k].nodeType == 1 ==>
      parent.children[k].nodeIndex == ElementsBefore(parent.children, k) + 1
  }

  /** The cache rule: a parent that carries the name of the pass has all its elements numbered. */
  ghost predicate CacheOk(parent: Node, doneName: nat)
    reads parent`sizcache, parent.children`nodeIndex
  {
    parent.sizcache == Some(doneName) ==> Numbered(parent, |parent.children|)
  }

  /** Numbers the element children of `parent`. */
  method NumberChildren(parent: Node)
    requires Family(parent)
    modifies parent.children`nodeIndex
    ensures Numbered(parent, |parent.children|)
  {
    var count := 0;
    var node := parent.firstChild;
    ghost var k := 0;
    while node != null
      invariant k <= |parent.children|
      invariant node == if k < |parent.children| then parent.children[k] else null
      invariant count == ElementsBefore(parent.children, k)
      invariant Numbered(parent, k)
      decreases |parent.children| - k
    {
      if node.nodeType == 1 {
        count := count + 1;
        node.nodeIndex := count;
      }
      node := node.nextSibling;
      k := k + 1;
    }
  }

  lemma EveryIndex(index: nat)
    ensures InProgression(1, 0, index)
  {
    assert index == 1 * index + 0;
  }

  lemma CachedPosition(elem: Node)
    requires elem.nodeType == 1 && elem.parentNode != null
    requires Family(elem.parentNode) && elem in elem.parentNode.children
    requires Numbered(elem.parentNode, |elem.parentNode.children|)
    ensures elem.nodeIndex == Position(elem)
  {
  }

  /** The case `nth` of `filter.CHILD`; nothing compares equal to a NaN. */
  method FilterNth(elem: Node, f: Formula, doneName: nat) returns (accepted: bool)
    requires elem.nodeType == 1 && elem.parentNode != null
    requires Family(elem.parentNode) && elem in elem.parentNode.children
    requires CacheOk(elem.parentNode, doneName)
    modifies elem.parentNode`sizcache, elem.parentNode.children`nodeIndex
    ensures CacheOk(elem.parentNode, doneName)
    ensures accepted <==> f.last.Some? && InProgression(f.first, f.last.value, Position(elem))
  {
    if f.first == 1 && f.last == Some(0) {
      EveryIndex(Position(elem));
      return true;
    }
    var parent := elem.parentNode;
    if parent.sizcache != Some(doneName) || elem.nodeIndex == 0 {
      NumberChildren(parent);
      parent.sizcache := Some(doneName);
    }
    match f.last
    case None => accepted := false;
    case Some(last) =>
      CachedPosition(elem);
      AcceptsProgression(f.first, last, Position(elem));
      accepted := Accepts(f.first, last, elem.nodeIndex);
  }

  /** The elements a filter run may meet, with the parents they hang on. */
  ghost predicate Tested(elems: seq<Node>, parents: set<Node>) {
    && (forall q :: q in parents ==> Family(q))
    && (forall i :: 0 <= i < |elems| ==>
          && elems[i].nodeType == 1 && elems[i].parentNode != null
          && elems[i].parentNode in parents && elems[i] in elems[i].parentNode.children)
  }

  ghost function ChildrenOf(parents: set<Node>): set<Node> {
    set q, c | q in parents && c in q.children :: c
  }

  lemma ChildrenAreIn(q: Node, parents: set<Node>)
    requires q in parents
    ensures forall c :: c in q.children ==> c in ChildrenOf(parents)
  {
  }

  /** A whole run over a set of elements, under a name that no parent carries yet; None is the
      TypeError of a formula that cannot be read. */
  method FilterRun(elems: seq<Node>, ghost parents: set<Node>, m: string, doneName: nat)
    returns (accepted: Option<seq<bool>>)
    requires Tested(elems, parents)
    requires forall q :: q in parents ==> q.sizcache != Some(doneName)
    modifies parents`sizcache, ChildrenOf(parents)`nodeIndex
    ensures accepted.Some? <==> ReadFormula(m).Some?
    ensures accepted.Some? ==> |accepted.value| == |elems| && var f := ReadFormula(m).value;
              forall i :: 0 <= i < |elems| ==>
                (accepted.value[i] <==> f.last.Some? && InProgression(f.first, f.last.value, Position(elems[i])))
    ensures forall form :: ValidForm(form) && m == Render(form) ==>
              && accepted.Some?
              && forall i :: 0 <= i < |elems| ==>
                   (accepted.value[i] <==> InProgression(Meaning(form).0, Meaning(form).1, Position(elems[i])))
  {
    forall form | ValidForm(form) && m == Render(form)
      ensures ReadFormula(m) == Some(Formula(Meaning(form).0, Some(Meaning(form).1)))
    {
      FormIsRead(form);
    }
    match ReadFormula(m)
    case None => accepted := None;
    case Some(f) =>
      var results := FilterAll(elems, parents, f, doneName);
      accepted := Some(results);
  }

  /** The loop of the run: every test keeps the cache rule for every parent. */
  method FilterAll(elems: seq<Node>, ghost parents: set<Node>, f: Formula, doneName: nat) returns (results: seq<bool>)
    requires Tested(elems, parents)
    requires forall q :: q in parents ==> q.sizcache != Some(doneName)
    modifies parents`sizcache, ChildrenOf(parents)`nodeIndex
    ensures |results| == |elems|
    ensures forall i :: 0 <= i < |elems| ==>
              (results[i] <==> f.last.Some? && InProgression(f.first, f.last.value, Position(elems[i])))
  {
    results := [];
    for i := 0 to |elems|
      invariant |results| == i
      invariant forall k :: 0 <= k < i ==> (results[k] <==> Chosen(f, elems[k]))
      invariant forall q :: q in parents ==> CacheOk(q, doneName)
    {
      var r := FilterNext(elems[i], parents, f, doneName);
      results := results + [r];
    }
  }

  /** One test of the run: the caches of all parents stay good, since no two parents share a child. */
  method FilterNext(elem: Node, ghost parents: set<Node>, f: Formula, doneName: nat) returns (accepted: bool)
    requires forall q :: q in parents ==> Family(q)
    requires elem.nodeType == 1 && elem.parentNode != null && elem.parentNode in parents && elem in elem.parentNode.children
    requires forall q :: q in parents ==> CacheOk(q, doneName)
    modifies parents`sizcache, ChildrenOf(parents)`nodeIndex
    ensures forall q :: q in parents ==> CacheOk(q, doneName)
    ensures accepted <==> Chosen(f, elem)
  {
    ChildrenAreIn(elem.parentNode, parents);
    forall q | q in parents && q != elem.parentNode
      ensures forall c :: c in q.children ==> c !in elem.parentNode.children
    {
    }
    accepted := FilterNth(elem, f, doneName);
  }

  /** The position of the element is in the progression; nothing is in one without an offset. */
  ghost predicate Chosen(f: Formula, elem: Node)
    requires elem.nodeType == 1 && elem.parentNode != null && Family(elem.parentNode) && elem in elem.parentNode.children
  {
    f.last.Some? && InProgression(f.first, f.last.value, Position(elem))
  }
}
