/** `dirNodeCheck` and `dirCheck` of jquery-1.3.2.js on the heap: the walks mark the nodes they pass so that
    later walks of the same pass can stop early. The methods are tied to the pass on values, and their
    contracts state what the slots end with by the links of the nodes. */
module SizzleWalk {
  import opened Wrappers
  import opened SizzlePass
  import SizzleOutside
  import SizzlePlain
  import opened SizzleChains

  /** The marks of the pass `doneName`: which slot each marked node points at. */
  ghost function Marks(doc: set<Node>, doneName: nat): map<Node, nat>
    reads doc`sizcache, doc`sizset
  {
    map n | n in doc && n.sizcache == Some(doneName) :: n.sizset
  }

  /** The `cur` of `dirCheck`: one node, or a selector, of which the model keeps its filter. */
  datatype Target = Exactly(node: Node) | Matching(filter: Node -> bool)

  predicate HitsTarget(cur: Target, n: Node) {
    n.nodeType == 1 && match cur
                       case Exactly(node) => n == node
                       case Matching(filter) => filter(n)
  }

  ghost function NameCheck(doc: set<Node>, dir: Direction, cur: string, isXML: bool): Check {
    Check(doc, dir, (n: Node) => n.nodeName == cur, false, isXML)
  }

  ghost function TargetCheck(doc: set<Node>, dir: Direction, cur: Target, isXML: bool): Check {
    Check(doc, dir, (n: Node) => HitsTarget(cur, n), cur.Exactly?, isXML)
  }

  /** What a pass delivers. The slots hold plain answers if and only if the condition of sibling passes
      holds; other passes always deliver them. In a regular set the slots hold the nearest matches outside
      the set. */
  ghost predicate Delivered(c: Check, was: seq<Slot>, now: seq<Slot>)
    requires c.Ok() && InDocument(c.Plain(), was)
  {
    && (Answered(c.Plain(), c.asTrue, was, now) <==> (c.Siblings() ==> SizzlePlain.PlainTo(c.Plain(), was, |was|)))
    && (Regular(c.Over(was), was) ==> Answered(c.Over(was), c.asTrue, was, now))
  }

  lemma CheckedIsDelivered(c: Check, was: seq<Slot>)
    requires c.Ok() && InDocument(c.Plain(), was) && SizzlePlain.OneHit(c)
    ensures Delivered(c, was, Checked(c, was))
  {
    SizzlePlain.PlainExactly(c, was);
    if Regular(c.Over(was), was) {
      SizzleOutside.RegularIsOutside(c, was);
    }
  }

  /** Leaves the mark of slot `i` on `elem`. */
  method Mark(ghost doc: set<Node>, elem: Node, doneName: nat, i: nat)
    requires elem in doc
    modifies elem`sizcache, elem`sizset
    ensures Marks(doc, doneName) == old(Marks(doc, doneName))[elem := i]
  {
    elem.sizcache, elem.sizset := Some(doneName), i;
  }

  ghost predicate MarksFit(marks: map<Node, nat>, slots: seq<Slot>) {
    forall n :: n in marks ==> marks[n] < |slots|
  }

  lemma {:induction false} WalkFits(c: Check, b: Board, i: nat, elem: Node?)
    requires c.Ok() && c.Plain().Has(elem) && i < |b.slots| && MarksFit(b.marks, b.slots)
    ensures MarksFit(Walk(c, b, i, elem).1, b.slots)
    decreases if elem == null then 0 else elem.order + 1
  {
    if elem != null && elem !in b.marks && !c.hit(elem) {
      WalkFits(c, b.(marks := if c.Marks(elem) then b.marks[elem := i] else b.marks), i, Next(elem, c.dir));
    }
  }

  /** The walk of `dirNodeCheck` for slot `i`, from the neighbour of its node on. */
  method WalkNodes(ghost doc: set<Node>, dir: Direction, cur: string, doneName: nat, checkSet: array<Slot>, isXML: bool,
                i: nat, first: Node?) returns (match_: Slot)
    requires Document(doc, dir) && (first == null || first in doc)
    requires i < checkSet.Length && MarksFit(Marks(doc, doneName), checkSet[..])
    modifies doc`sizcache, doc`sizset
    ensures (match_, Marks(doc, doneName))
         == Walk(NameCheck(doc, dir, cur, isXML), Board(old(Marks(doc, doneName)), checkSet[..]), i, first)
  {
    ghost var c := NameCheck(doc, dir, cur, isXML);
    ghost var slots := checkSet[..];
    ghost var goal := Walk(c, Board(Marks(doc, doneName), slots), i, first);
    var elem := first;
    while elem != null
      invariant (elem == null || elem in doc) && MarksFit(Marks(doc, doneName), slots)
      invariant Walk(c, Board(Marks(doc, doneName), slots), i, elem) == goal
      decreases if elem == null then 0 else elem.order + 1
    {
      if elem.sizcache == Some(doneName) {
        assert elem in Marks(doc, doneName);
        return checkSet[elem.sizset];
      }
      if elem.nodeType == 1 && !isXML {
        Mark(doc, elem, doneName, i);
      }
      if elem.nodeName == cur {
        return Found(elem);
      }
      elem := Next(elem, dir);
    }
    return Absent;
  }

  /** One slot of `dirNodeCheck`. */
  method CheckNodeSlot(ghost doc: set<Node>, dir: Direction, cur: string, doneName: nat, checkSet: array<Slot>, isXML: bool, i: nat)
    requires Document(doc, dir) && i < checkSet.Length && MarksFit(Marks(doc, doneName), checkSet[..])
    requires checkSet[i].Found? ==> checkSet[i].node in doc
    modifies checkSet, doc`sizcache, doc`sizset
    ensures Board(Marks(doc, doneName), checkSet[..])
         == StepSlot(NameCheck(doc, dir, cur, isXML), old(Board(Marks(doc, doneName), checkSet[..])), i)
    ensures MarksFit(Marks(doc, doneName), checkSet[..])
  {
    ghost var c := NameCheck(doc, dir, cur, isXML);
    ghost var slots := checkSet[..];
    var slot := checkSet[i];
    if slot.Found? {
      var start := slot.node;
      if dir == PreviousSibling && !isXML && start.nodeType == 1 {
        Mark(doc, start, doneName, i);
      }
      WalkFits(c, Board(Marks(doc, doneName), slots), i, Next(start, dir));
      var match_ := WalkNodes(doc, dir, cur, doneName, checkSet, isXML, i, Next(start, dir));
      checkSet[i] := match_;
      assert checkSet[..] == slots[i := match_];
    } else if slot.Yes? {
      checkSet[i] := Absent;
      assert checkSet[..] == slots[i := Absent];
    }
  }

  /** `dirNodeCheck`: the nearest node named `cur` in the given direction. */
  method DirNodeCheck(ghost doc: set<Node>, dir: Direction, cur: string, doneName: nat, checkSet: array<Slot>, isXML: bool)
    requires Document(doc, dir) && Marks(doc, doneName) == map[]
    requires forall i :: 0 <= i < checkSet.Length && checkSet[i].Found? ==> checkSet[i].node in doc
    modifies checkSet, doc`sizcache, doc`sizset
    ensures checkSet[..] == Checked(NameCheck(doc, dir, cur, isXML), old(checkSet[..]))
    ensures Delivered(NameCheck(doc, dir, cur, isXML), old(checkSet[..]), checkSet[..])
    ensures dir == ParentNode ==>
              ParentsPrecede(doc) && TellAncestors(doc, (n: Node) => n.nodeName == cur, false, old(checkSet[..]), checkSet[..])
    ensures dir == PreviousSibling ==>
              SiblingsPrecede(doc) &&
              (TellPreceding(doc, (n: Node) => n.nodeName == cur, false, old(checkSet[..]), checkSet[..])
               <==> isXML || AllUnspoilt(doc, (n: Node) => n.nodeName == cur, old(checkSet[..])))
  {
    ghost var was := checkSet[..];
    ghost var c := NameCheck(doc, dir, cur, isXML);
    for i := 0 to checkSet.Length
      invariant Board(Marks(doc, doneName), checkSet[..]) == Steps(c, was, i)
      invariant MarksFit(Marks(doc, doneName), checkSet[..])
    {
      assert checkSet[..][i] == was[i];
      CheckNodeSlot(doc, dir, cur, doneName, checkSet, isXML, i);
    }
    CheckedIsDelivered(c, was);
    DeliveredIsTold(c, (n: Node) => n.nodeName == cur, was);
  }

  /** The walk of `dirCheck` for slot `i`, from the neighbour of its node on. */
  method WalkElements(ghost doc: set<Node>, dir: Direction, cur: Target, doneName: nat, checkSet: array<Slot>, isXML: bool,
                i: nat, first: Node?) returns (match_: Slot)
    requires Document(doc, dir) && (first == null || first in doc)
    requires i < checkSet.Length && MarksFit(Marks(doc, doneName), checkSet[..])
    modifies doc`sizcache, doc`sizset
    ensures (match_, Marks(doc, doneName))
         == Walk(TargetCheck(doc, dir, cur, isXML), Board(old(Marks(doc, doneName)), checkSet[..]), i, first)
  {
    ghost var c := TargetCheck(doc, dir, cur, isXML);
    ghost var slots := checkSet[..];
    ghost var goal := Walk(c, Board(Marks(doc, doneName), slots), i, first);
    var elem := first;
    while elem != null
      invariant (elem == null || elem in doc) && MarksFit(Marks(doc, doneName), slots)
      invariant Walk(c, Board(Marks(doc, doneName), slots), i, elem) == goal
      decreases if elem == null then 0 else elem.order + 1
    {
      if elem.sizcache == Some(doneName) {
        assert elem in Marks(doc, doneName);
        return checkSet[elem.sizset];
      }
      if elem.nodeType == 1 {
        if !isXML {
          Mark(doc, elem, doneName, i);
        }
        if HitsTarget(cur, elem) {
          return if cur.Exactly? then Yes else Found(elem);
        }
      }
      elem := Next(elem, dir);
    }
    return Absent;
  }

  /** One slot of `dirCheck`. */
  method CheckElementSlot(ghost doc: set<Node>, dir: Direction, cur: Target, doneName: nat, checkSet: array<Slot>, isXML: bool, i: nat)
    requires Document(doc, dir) && i < checkSet.Length && MarksFit(Marks(doc, doneName), checkSet[..])
    requires checkSet[i].Found? ==> checkSet[i].node in doc
    modifies checkSet, doc`sizcache, doc`sizset
    ensures Board(Marks(doc, doneName), checkSet[..])
         == StepSlot(TargetCheck(doc, dir, cur, isXML), old(Board(Marks(doc, doneName), checkSet[..])), i)
    ensures MarksFit(Marks(doc, doneName), checkSet[..])
  {
    ghost var c := TargetCheck(doc, dir, cur, isXML);
    ghost var slots := checkSet[..];
    var slot := checkSet[i];
    if slot.Found? {
      var start := slot.node;
      if dir == PreviousSibling && !isXML && start.nodeType == 1 {
        Mark(doc, start, doneName, i);
      }
      WalkFits(c, Board(Marks(doc, doneName), slots), i, Next(start, dir));
      var match_ := WalkElements(doc, dir, cur, doneName, checkSet, isXML, i, Next(start, dir));
      checkSet[i] := match_;
      assert checkSet[..] == slots[i := match_];
    } else if slot.Yes? {
      checkSet[i] := Absent;
      assert checkSet[..] == slots[i := Absent];
    }
  }

  /** `dirCheck`: the nearest element that is `cur` or matches it. */
  method DirCheck(ghost doc: set<Node>, dir: Direction, cur: Target, doneName: nat, checkSet: array<Slot>, isXML: bool)
    requires Document(doc, dir) && Marks(doc, doneName) == map[]
    requires forall i :: 0 <= i < checkSet.Length && checkSet[i].Found? ==> checkSet[i].node in doc
    modifies checkSet, doc`sizcache, doc`sizset
    ensures checkSet[..] == Checked(TargetCheck(doc, dir, cur, isXML), old(checkSet[..]))
    ensures Delivered(TargetCheck(doc, dir, cur, isXML), old(checkSet[..]), checkSet[..])
    ensures dir == ParentNode ==>
              ParentsPrecede(doc) &&
              TellAncestors(doc, (n: Node) => n.nodeType == 1 && (if cur.Exactly? then n == cur.node else cur.filter(n)), cur.Exactly?, old(checkSet[..]), checkSet[..])
    ensures dir == PreviousSibling ==>
              SiblingsPrecede(doc) &&
              (TellPreceding(doc, (n: Node) => n.nodeType == 1 && (if cur.Exactly? then n == cur.node else cur.filter(n)), cur.Exactly?, old(checkSet[..]), checkSet[..])
               <==> isXML || AllUnspoilt(doc, (n: Node) => n.nodeType == 1 && (if cur.Exactly? then n == cur.node else cur.filter(n)), old(checkSet[..])))
  {
    ghost var was := checkSet[..];
    ghost var c := TargetCheck(doc, dir, cur, isXML);
    for i := 0 to checkSet.Length
      invariant Board(Marks(doc, doneName), checkSet[..]) == Steps(c, was, i)
      invariant MarksFit(Marks(doc, doneName), checkSet[..])
    {
      assert checkSet[..][i] == was[i];
      CheckElementSlot(doc, dir, cur, doneName, checkSet, isXML, i);
    }
    CheckedIsDelivered(c, was);
    DeliveredIsTold(c, (n: Node) => n.nodeType == 1 && (if cur.Exactly? then n == cur.node else cur.filter(n)), was);
  }
}
