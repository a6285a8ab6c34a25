/** The memoised walks of the selector engine in jquery-1.3.2.js on values: the plain walk, the walk
    with marks, and the pass over a set. */
module SizzlePass {
  import opened Wrappers

  /** A DOM node. The links do not change during a pass; `order` is the document order, which
      both the parent and the previous sibling precede. */
  class Node {
    const nodeType: int
    const nodeName: string
    const parentNode: Node?
    const previousSibling: Node?
    ghost const order: nat
    var sizcache: Option<nat>
    var sizset: nat
  }

  datatype Direction = ParentNode | PreviousSibling

  function Next(n: Node, dir: Direction): Node? {
    match dir
    case ParentNode => n.parentNode
    case PreviousSibling => n.previousSibling
  }

  /** A slot of `checkSet`: false, a node, or true. */
  datatype Slot = Absent | Found(node: Node) | Yes

  ghost predicate Document(doc: set<Node>, dir: Direction) {
    forall n {:trigger Next(n, dir)} :: n in doc && Next(n, dir) != null ==> Next(n, dir) in doc && Next(n, dir).order < n.order
  }

  // ------------------------------------------------------------ the plain walk

  /** Where a walk goes, what it looks for, and which nodes it passes over. */
  datatype Pass = Pass(doc: set<Node>, dir: Direction, hit: Node -> bool, skip: set<Node>) {
    ghost predicate Ok() {
      Document(doc, dir)
    }

    ghost predicate Has(n: Node?) {
      n == null || n in doc
    }

    /** The first node at or beyond `n` that hits and is not in `skip`. */
    ghost function Nearest(n: Node?): Node?
      requires Ok() && Has(n)
      decreases if n == null then 0 else n.order + 1
    {
      if n == null then null
      else if hit(n) && n !in skip then n
      else Nearest(Next(n, dir))
    }

    /** The walk of a slot starts at the neighbour of its node; a `true` has no neighbour. */
    ghost function NearestOf(slot: Slot): Node?
      requires Ok() && (slot.Found? ==> slot.node in doc)
    {
      if slot.Found? then Nearest(Next(slot.node, dir)) else null
    }

    ghost function Plainly(): Pass {
      this.(skip := {})
    }

    /** The walk from `from` comes by `n`. */
    ghost predicate Behind(from: Node?, n: Node)
      requires Ok() && Has(from)
      decreases if from == null then 0 else from.order + 1
    {
      from != null && (n == from || Behind(Next(from, dir), n))
    }
  }

  /** How a walk reports what it found. */
  function Report(n: Node?, asTrue: bool): Slot {
    if n == null then Absent else if asTrue then Yes else Found(n)
  }

  /** The elements of the set, which a sibling pass marks before it walks. */
  ghost function Starts(slots: seq<Slot>): set<Node> {
    set i | 0 <= i < |slots| && slots[i].Found? && slots[i].node.nodeType == 1 :: slots[i].node
  }

  ghost predicate InDocument(p: Pass, slots: seq<Slot>) {
    forall i :: 0 <= i < |slots| && slots[i].Found? ==> slots[i].node in p.doc
  }

  /** Every slot holds what the pass finds for it. */
  ghost predicate Answered(p: Pass, asTrue: bool, was: seq<Slot>, now: seq<Slot>)
    requires p.Ok() && InDocument(p, was)
  {
    |now| == |was| && forall k :: 0 <= k < |was| ==> now[k] == Report(p.NearestOf(was[k]), asTrue)
  }

  lemma {:induction false} NearestIsFurther(p: Pass, n: Node?)
    requires p.Ok() && p.Has(n)
    ensures var r := p.Nearest(n);
            r != null ==> n != null && r in p.doc && r.order <= n.order && p.hit(r) && r !in p.skip
    decreases if n == null then 0 else n.order + 1
  {
    if n != null && !(p.hit(n) && n !in p.skip) {
      NearestIsFurther(p, Next(n, p.dir));
    }
  }

  lemma {:induction false} NearestIsBehind(p: Pass, n: Node?)
    requires p.Ok() && p.Has(n)
    ensures p.Nearest(n) != null ==> p.Behind(n, p.Nearest(n))
    decreases if n == null then 0 else n.order + 1
  {
    if n != null && p.Nearest(n) != n {
      NearestIsBehind(p, Next(n, p.dir));
    }
  }

  lemma {:induction false} BehindIsEarlier(p: Pass, from: Node?, n: Node)
    requires p.Ok() && p.Has(from)
    ensures p.Behind(from, n) ==> from != null && n in p.doc && n.order <= from.order
    decreases if from == null then 0 else from.order + 1
  {
    if from != null && n != from {
      BehindIsEarlier(p, Next(from, p.dir), n);
    }
  }

  lemma {:induction false} BehindBehind(p: Pass, from: Node?, m: Node, n: Node)
    requires p.Ok() && p.Has(from) && m in p.doc && p.Behind(from, m) && p.Behind(m, n)
    ensures p.Behind(from, n)
    decreases if from == null then 0 else from.order + 1
  {
    if m != from {
      BehindBehind(p, Next(from, p.dir), m, n);
    }
  }

  /** The walk ignores what is not passed over. */
  lemma {:induction false} SameWalk(p: Pass, q: Pass, from: Node?, n: Node)
    requires p.Ok() && p.Has(from) && q.doc == p.doc && q.dir == p.dir
    ensures q.Ok() && q.Behind(from, n) == p.Behind(from, n)
    decreases if from == null then 0 else from.order + 1
  {
    if from != null {
      SameWalk(p, q, Next(from, p.dir), n);
    }
  }

  // --------------------------------------------------------- passing over the set

  /** If no start hits, leaving the starts out changes nothing. */
  lemma {:induction false} NothingSkipped(p: Pass, n: Node?)
    requires p.Ok() && p.Has(n) && forall m :: m in p.skip ==> !p.hit(m)
    ensures p.Nearest(n) == p.Plainly().Nearest(n)
    decreases if n == null then 0 else n.order + 1
  {
    if n != null && !p.hit(n) {
      NothingSkipped(p, Next(n, p.dir));
    }
  }

  /** Leaving the starts out gives the plain answer exactly when the plain answer is no start. */
  lemma {:induction false} SkipIsHarmless(p: Pass, n: Node?)
    requires p.Ok() && p.Has(n)
    ensures var plain := p.Plainly().Nearest(n);
            p.Nearest(n) == plain <==> plain == null || plain !in p.skip
    decreases if n == null then 0 else n.order + 1
  {
    if n != null {
      if p.hit(n) {
        NearestIsFurther(p, n);
      } else {
        SkipIsHarmless(p, Next(n, p.dir));
      }
    }
  }

  /** A whole set gets plain answers exactly when no plain answer is itself a start. */
  lemma PassIsPlain(p: Pass, slots: seq<Slot>)
    requires p.Ok() && InDocument(p, slots)
    ensures (forall i :: 0 <= i < |slots| ==> p.NearestOf(slots[i]) == p.Plainly().NearestOf(slots[i]))
       <==> (forall i :: 0 <= i < |slots| ==> p.Plainly().NearestOf(slots[i]) !in p.skip)
  {
    forall i | 0 <= i < |slots| && slots[i].Found?
      ensures p.NearestOf(slots[i]) == p.Plainly().NearestOf(slots[i]) <==> p.Plainly().NearestOf(slots[i]) !in p.skip
    {
      SkipIsHarmless(p, Next(slots[i].node, p.dir));
    }
  }

  /** No walk comes by a later element of the set. */
  ghost predicate WalkOrder(p: Pass, slots: seq<Slot>)
    requires p.Ok() && InDocument(p, slots)
  {
    forall i, j :: 0 <= i < j < |slots| && slots[i].Found? && slots[j].Found?
      ==> !p.Behind(Next(slots[i].node, p.dir), slots[j].node)
  }

  /** No element of the set hits, or no walk comes by a later one. */
  ghost predicate Regular(p: Pass, slots: seq<Slot>)
    requires p.Ok() && InDocument(p, slots)
  {
    (forall n :: n in p.skip ==> !p.hit(n)) || WalkOrder(p, slots)
  }

  /** A set in document order is in walk order. */
  lemma DocumentOrder(p: Pass, slots: seq<Slot>)
    requires p.Ok() && InDocument(p, slots)
    requires forall i, j :: 0 <= i < j < |slots| && slots[i].Found? && slots[j].Found?
               ==> slots[i].node.order <= slots[j].node.order
    ensures Regular(p, slots)
  {
    forall i, j | 0 <= i < j < |slots| && slots[i].Found? && slots[j].Found?
      ensures !p.Behind(Next(slots[i].node, p.dir), slots[j].node)
    {
      BehindIsEarlier(p, Next(slots[i].node, p.dir), slots[j].node);
    }
  }

  // --------------------------------------------------------------- the marked walk

  /** A call of `dirNodeCheck` or `dirCheck`, with what counts as a hit. */
  datatype Check = Check(doc: set<Node>, dir: Direction, hit: Node -> bool, asTrue: bool, isXML: bool) {
    ghost predicate Ok() {
      Document(doc, dir)
    }

    /** `sibDir` */
    predicate Siblings() {
      dir.PreviousSibling? && !isXML
    }

    /** What is expected. */
    ghost function Plain(): Pass {
      Pass(doc, dir, hit, {})
    }

    /** What a sibling pass does: it passes over the set. */
    ghost function Over(slots: seq<Slot>): Pass {
      Pass(doc, dir, hit, if Siblings() then Starts(slots) else {})
    }

    ghost predicate Marks(n: Node) {
      n.nodeType == 1 && !isXML
    }
  }

  /** The marks of the nodes, each pointing at a slot, and the slots. */
  datatype Board = Board(marks: map<Node, nat>, slots: seq<Slot>)

  function At(slots: seq<Slot>, k: nat): Slot {
    if k < |slots| then slots[k] else Absent
  }

  /** The inner loop, from `elem` on: what ends it, and the marks after it. */
  ghost function Walk(c: Check, b: Board, i: nat, elem: Node?): (Slot, map<Node, nat>)
    requires c.Ok() && c.Plain().Has(elem)
    decreases if elem == null then 0 else elem.order + 1
  {
    if elem == null then (Absent, b.marks)
    else if elem in b.marks then (At(b.slots, b.marks[elem]), b.marks)
    else
      var marks := if c.Marks(elem) then b.marks[elem := i] else b.marks;
      if c.hit(elem) then (Report(elem, c.asTrue), marks)
      else Walk(c, b.(marks := marks), i, Next(elem, c.dir))
  }

  /** The marks with which the walk of a slot begins. */
  ghost function Started(c: Check, marks: map<Node, nat>, i: nat, start: Node): map<Node, nat> {
    if c.Siblings() && start.nodeType == 1 then marks[start := i] else marks
  }

  /** One round of the outer loop. */
  ghost function StepSlot(c: Check, b: Board, i: nat): (r: Board)
    requires c.Ok() && i < |b.slots| && (b.slots[i].Found? ==> b.slots[i].node in c.doc)
    ensures |r.slots| == |b.slots| && forall k :: 0 <= k < |b.slots| && k != i ==> r.slots[k] == b.slots[k]
  {
    match b.slots[i]
    case Absent => b
    case Yes => b.(slots := b.slots[i := Absent])
    case Found(start) =>
      var (found, marks) := Walk(c, b.(marks := Started(c, b.marks, i, start)), i, Next(start, c.dir));
      Board(marks, b.slots[i := found])
  }

  /** The board after `i` rounds. */
  ghost function Steps(c: Check, was: seq<Slot>, i: nat): (r: Board)
    requires c.Ok() && InDocument(c.Plain(), was) && i <= |was|
    ensures |r.slots| == |was| && forall k :: i <= k < |was| ==> r.slots[k] == was[k]
  {
    if i == 0 then Board(map[], was) else StepSlot(c, Steps(c, was, i - 1), i - 1)
  }

  /** `checkSet` after the pass. */
  ghost function Checked(c: Check, was: seq<Slot>): seq<Slot>
    requires c.Ok() && InDocument(c.Plain(), was)
  {
    Steps(c, was, |was|).slots
  }

  // -------------------------------------------------------- a walk in closed form

  /** The first node from `n` on that is marked or hits. */
  ghost function StopAt(p: Pass, marked: set<Node>, n: Node?): Node?
    requires p.Ok() && p.Has(n)
    decreases if n == null then 0 else n.order + 1
  {
    if n == null || n in marked || p.hit(n) then n else StopAt(p, marked, Next(n, p.dir))
  }

  /** The nodes that a walk from `n` marks. */
  ghost function Trail(c: Check, marked: set<Node>, n: Node?): set<Node>
    requires c.Ok() && c.Plain().Has(n)
    decreases if n == null then 0 else n.order + 1
  {
    if n == null || n in marked then {}
    else (if c.Marks(n) then {n} else {}) + (if c.hit(n) then {} else Trail(c, marked, Next(n, c.dir)))
  }

  ghost function AllTo(nodes: set<Node>, i: nat): map<Node, nat> {
    map n | n in nodes :: i
  }

  ghost function Outcome(c: Check, b: Board, stop: Node?): Slot {
    if stop != null && stop in b.marks then At(b.slots, b.marks[stop]) else Report(stop, c.asTrue)
  }

  /** A mark behind the walk makes no difference to it. */
  lemma {:induction false} MarkBehind(c: Check, marked: set<Node>, x: Node, n: Node?)
    requires c.Ok() && c.Plain().Has(n) && (n != null ==> n.order < x.order)
    ensures StopAt(c.Plain(), marked + {x}, n) == StopAt(c.Plain(), marked, n)
    ensures Trail(c, marked + {x}, n) == Trail(c, marked, n)
    decreases if n == null then 0 else n.order + 1
  {
    if n != null && n !in marked && !c.hit(n) {
      MarkBehind(c, marked, x, Next(n, c.dir));
    }
  }

  lemma {:induction false} StopIsEarlier(p: Pass, marked: set<Node>, n: Node?)
    requires p.Ok() && p.Has(n)
    ensures var stop := StopAt(p, marked, n); stop != null ==> n != null && stop in p.doc && stop.order <= n.order
    decreases if n == null then 0 else n.order + 1
  {
    if n != null && n !in marked && !p.hit(n) {
      StopIsEarlier(p, marked, Next(n, p.dir));
    }
  }

  lemma {:induction false} WalkIs(c: Check, b: Board, i: nat, n: Node?)
    requires c.Ok() && c.Plain().Has(n)
    ensures Walk(c, b, i, n)
         == (Outcome(c, b, StopAt(c.Plain(), b.marks.Keys, n)), b.marks + AllTo(Trail(c, b.marks.Keys, n), i))
    decreases if n == null then 0 else n.order + 1
  {
    if n == null || n in b.marks {
      assert b.marks + AllTo({}, i) == b.marks;
    } else {
      var marks := if c.Marks(n) then b.marks[n := i] else b.marks;
      var next := Next(n, c.dir);
      if c.hit(n) {
        assert b.marks + AllTo(Trail(c, b.marks.Keys, n), i) == marks;
      } else {
        WalkIs(c, b.(marks := marks), i, next);
        if c.Marks(n) {
          assert marks.Keys == b.marks.Keys + {n};
          MarkBehind(c, b.marks.Keys, n, next);
        }
        StopIsEarlier(c.Plain(), b.marks.Keys, next);
        MarksAdd(b.marks, marks, n, Trail(c, b.marks.Keys, next), i, c.Marks(n));
      }
    }
  }

  lemma MarksAdd(before: map<Node, nat>, marks: map<Node, nat>, n: Node, trail: set<Node>, i: nat, marked: bool)
    requires marks == if marked then before[n := i] else before
    ensures marks + AllTo(trail, i) == before + AllTo((if marked then {n} else {}) + trail, i)
  {
  }

  /** What a walk comes by: it stops at or before whatever is to be found, and marks only what leads there. */
  lemma {:induction false} StopIsBehind(p: Pass, marked: set<Node>, n: Node?)
    requires p.Ok() && p.Has(n)
    ensures var stop := StopAt(p, marked, n);
            if stop == null then p.Nearest(n) == null
            else p.Behind(n, stop) && stop in p.doc && p.Nearest(n) == p.Nearest(stop) && (stop in marked || p.hit(stop))
    decreases if n == null then 0 else n.order + 1
  {
    if n != null && n !in marked && !p.hit(n) {
      StopIsBehind(p, marked, Next(n, p.dir));
    }
  }

  ghost predicate OnTrail(p: Pass, marked: set<Node>, n: Node?, t: Node)
    requires p.Ok() && p.Has(n)
  {
    var stop := StopAt(p, marked, n);
    && t in p.doc && t.nodeType == 1 && t !in marked && p.Behind(n, t) && p.Nearest(t) == p.Nearest(n)
    && (p.hit(t) ==> t == stop) && (stop != null ==> p.Behind(t, stop))
  }

  lemma {:induction false} TrailIs(c: Check, p: Pass, marked: set<Node>, n: Node?)
    requires c.Ok() && p.doc == c.doc && p.dir == c.dir && p.hit == c.hit && p.Has(n)
    ensures p.Ok() && forall t :: t in Trail(c, marked, n) ==> OnTrail(p, marked, n, t)
    decreases if n == null then 0 else n.order + 1
  {
    if n != null && n !in marked {
      if p.hit(n) {
        assert OnTrail(p, marked, n, n) || n.nodeType != 1;
      } else {
        var next := Next(n, p.dir);
        TrailIs(c, p, marked, next);
        forall t | t in Trail(c, marked, next)
          ensures OnTrail(p, marked, n, t)
        {
          assert OnTrail(p, marked, next, t);
        }
        if n.nodeType == 1 { StopIsBehind(p, marked, n); }
      }
    }
  }

  /** A pass over the set does go wrong: of two adjacent elements that both hit, the second is told that
      nothing precedes it. */
  lemma AdjacentStarts(a: Node, b: Node, c: Check)
    requires c.doc == {a, b} && c.dir.PreviousSibling? && !c.isXML && c.hit(a) && c.hit(b)
    requires a.previousSibling == null && b.previousSibling == a && a.order < b.order
    requires a.nodeType == 1 && b.nodeType == 1
    ensures var slots := [Found(a), Found(b)];
            var p := c.Over(slots);
            && c.Ok() && InDocument(p, slots) && Regular(p, slots)
            && p.NearestOf(slots[1]) == null && p.Plainly().NearestOf(slots[1]) == a
  {
    var slots := [Found(a), Found(b)];
    var p := c.Over(slots);
    assert slots[0].Found? && slots[0].node == a;
    assert p.Nearest(a) == p.Nearest(Next(a, PreviousSibling)) == null;
    assert p.Plainly().Nearest(a) == a;
    assert slots[1] == Found(b) && Next(b, PreviousSibling) == a;
    DocumentOrder(p, slots);
  }
}
