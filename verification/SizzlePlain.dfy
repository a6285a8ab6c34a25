/** When the marked walks of a sibling pass find what plain walks find: an exact condition, for sets in any
    order. */
module SizzlePlain {
  import opened SizzlePass
  import opened SizzleOutside

  // ------------------------------------------------------------------ the condition

  /** Slot `k` is an element that no earlier slot holds. */
  ghost predicate FirstListed(was: seq<Slot>, k: nat) {
    && k < |was| && was[k].Found? && was[k].node.nodeType == 1
    && forall j :: 0 <= j < k ==> was[j] != was[k]
  }

  /** The walk from `start` comes by `elem` before it finds anything, or begins there. */
  ghost predicate ComesBy(p: Pass, start: Node, elem: Node)
    requires p.Ok() && start in p.doc
  {
    elem == start ||
    (&& elem in p.doc && elem.order < start.order && p.Behind(Next(start, p.dir), elem)
     && p.Nearest(elem) == p.Nearest(Next(start, p.dir)))
  }

  /** The walk of slot `j` found the element of slot `k` and marked `e`, which lies before it at or beyond `n`. */
  ghost predicate Helps(p: Pass, was: seq<Slot>, j: nat, e: Node, n: Node?, k: nat)
    requires p.Ok() && InDocument(p, was) && p.Has(n) && k < |was| && was[k].Found?
  {
    && j < k && was[j].Found? && p.NearestOf(was[j]) == was[k].node
    && e in p.doc && e.nodeType == 1 && !p.hit(e) && p.Behind(n, e) && was[k].node.order < e.order
    && ComesBy(p, was[j].node, e)
  }

  ghost predicate IsHelped(p: Pass, was: seq<Slot>, n: Node?, k: nat)
    requires p.Ok() && InDocument(p, was) && p.Has(n) && k < |was| && was[k].Found?
  {
    exists j: nat, e :: e in p.doc && Helps(p, was, j, e, n, k)
  }

  /** The plain answer of slot `i` is no element first listed at an earlier slot `k`, unless the walk of a
      slot before `k` found it too and came by an element on the way of slot `i`. */
  ghost predicate PlainAt(p: Pass, was: seq<Slot>, i: nat)
    requires p.Ok() && InDocument(p, was) && i < |was|
  {
    forall k :: 0 <= k < i && FirstListed(was, k) && p.NearestOf(was[i]) == was[k].node ==>
      was[i].Found? && IsHelped(p, was, Next(was[i].node, p.dir), k)
  }

  ghost predicate PlainTo(p: Pass, was: seq<Slot>, i: nat)
    requires p.Ok() && InDocument(p, was) && i <= |was|
  {
    forall m :: 0 <= m < i ==> PlainAt(p, was, m)
  }

  // ------------------------------------------------------------------- the invariants

  /** The nodes from `n` on up to the next element, unless something hits before, which is marked then. */
  ghost predicate Covered(p: Pass, marked: set<Node>, n: Node?)
    requires p.Ok() && p.Has(n)
    decreases if n == null then 0 else n.order + 1
  {
    n == null || if n.nodeType == 1 then n in marked else p.hit(n) || Covered(p, marked, Next(n, p.dir))
  }

  /** Marked nodes are elements. Each was marked by the walk of its slot, or as the element of its slot. */
  ghost predicate Origins(p: Pass, was: seq<Slot>, marks: map<Node, nat>, i: nat)
    requires p.Ok() && InDocument(p, was) && i <= |was|
  {
    forall n :: n in marks ==>
      n in p.doc && n.nodeType == 1 && marks[n] < i && was[marks[n]].Found? && ComesBy(p, was[marks[n]].node, n)
  }

  /** The elements of the set so far are marked, those that hit by themselves. */
  ghost predicate Listed(p: Pass, was: seq<Slot>, marks: map<Node, nat>, i: nat)
    requires i <= |was|
  {
    forall k :: 0 <= k < i && was[k].Found? && was[k].node.nodeType == 1 ==>
      && was[k].node in marks
      && (p.hit(was[k].node) ==> marks[was[k].node] < |was| && was[marks[was[k].node]] == was[k])
  }

  /** Marks go on to the next hit. */
  ghost predicate Closed(p: Pass, marked: set<Node>)
    requires p.Ok()
  {
    forall n :: n in marked ==> n in p.doc && (!p.hit(n) ==> Covered(p, marked, Next(n, p.dir)))
  }

  ghost predicate WalksCovered(p: Pass, was: seq<Slot>, marked: set<Node>, i: nat)
    requires p.Ok() && InDocument(p, was) && i <= |was|
  {
    forall k :: 0 <= k < i && was[k].Found? ==> Covered(p, marked, Next(was[k].node, p.dir))
  }

  /** A mark that leads to an element of the set is helped. */
  ghost predicate Helped(p: Pass, was: seq<Slot>, marked: set<Node>, i: nat)
    requires p.Ok() && InDocument(p, was) && i <= |was|
  {
    forall n, k :: n in marked && n in p.doc && 0 <= k < i && FirstListed(was, k) && !p.hit(n) && p.Nearest(n) == was[k].node ==>
      IsHelped(p, was, n, k)
  }

  ghost predicate Tracked(p: Pass, was: seq<Slot>, marks: map<Node, nat>, i: nat)
    requires p.Ok() && InDocument(p, was) && i <= |was|
  {
    && Origins(p, was, marks, i) && Listed(p, was, marks, i)
    && Closed(p, marks.Keys) && WalksCovered(p, was, marks.Keys, i) && Helped(p, was, marks.Keys, i)
  }

  // -------------------------------------------------------------------- coverage

  lemma {:induction false} CoveredMore(p: Pass, marked: set<Node>, more: set<Node>, n: Node?)
    requires p.Ok() && p.Has(n) && marked <= more && Covered(p, marked, n)
    ensures Covered(p, more, n)
    decreases if n == null then 0 else n.order + 1
  {
    if n != null && n.nodeType != 1 && !p.hit(n) {
      CoveredMore(p, marked, more, Next(n, p.dir));
    }
  }

  /** From covered ground every element before the next hit is marked. */
  lemma {:induction false} CoveredReaches(p: Pass, marked: set<Node>, n: Node?, e: Node)
    requires p.Ok() && p.Has(n) && p.skip == {} && Closed(p, marked) && Covered(p, marked, n)
    requires e in p.doc && e.nodeType == 1 && !p.hit(e) && p.Behind(n, e) && p.Nearest(e) == p.Nearest(n)
    ensures e in marked
    decreases if n == null then 0 else n.order + 1
  {
    if n != e {
      BehindIsEarlier(p, Next(n, p.dir), e);
      NearestIsFurther(p, e);
      assert !p.hit(n);
      CoveredReaches(p, marked, Next(n, p.dir), e);
    }
  }

  /** A walk stops no later than at a marked node. */
  lemma {:induction false} StopsByMark(p: Pass, marked: set<Node>, n: Node?, e: Node)
    requires p.Ok() && p.Has(n) && e in marked && p.Behind(n, e)
    ensures StopAt(p, marked, n) != null && e.order <= StopAt(p, marked, n).order
    decreases if n == null then 0 else n.order + 1
  {
    if n != e {
      BehindIsEarlier(p, Next(n, p.dir), e);
      if n !in marked && !p.hit(n) {
        StopsByMark(p, marked, Next(n, p.dir), e);
      }
    }
  }

  /** A trail covers the ground it comes over. */
  lemma {:induction false} TrailCovers(c: Check, marked: set<Node>, all: set<Node>, n: Node?)
    requires c.Ok() && c.Plain().Has(n) && !c.isXML && marked + Trail(c, marked, n) <= all
    requires forall m :: m in marked ==> m.nodeType == 1
    ensures Covered(c.Plain(), all, n)
    ensures forall t :: t in Trail(c, marked, n) ==> t in c.doc && (!c.hit(t) ==> Covered(c.Plain(), all, Next(t, c.dir)))
    decreases if n == null then 0 else n.order + 1
  {
    if n != null && n !in marked && !c.hit(n) {
      TrailCovers(c, marked, all, Next(n, c.dir));
    }
  }

  // ---------------------------------------------------------------- one walk

  /** Helped from further on is helped. */
  lemma HelpedBefore(p: Pass, was: seq<Slot>, n: Node?, m: Node, k: nat)
    requires p.Ok() && InDocument(p, was) && p.Has(n) && m in p.doc && k < |was| && was[k].Found?
    requires p.Behind(n, m) && IsHelped(p, was, m, k)
    ensures IsHelped(p, was, n, k)
  {
    var j: nat, e :| e in p.doc && Helps(p, was, j, e, m, k);
    BehindBehind(p, n, m, e);
    assert Helps(p, was, j, e, n, k);
  }

  /** If slot `i` is helped, its walk stops before the element that it looks for. */
  lemma HelpedStops(p: Pass, was: seq<Slot>, marks: map<Node, nat>, marked: set<Node>, i: nat, n: Node?, k: nat)
    requires p.Ok() && InDocument(p, was) && p.skip == {} && p.Has(n) && i < |was| && Tracked(p, was, marks, i)
    requires marks.Keys <= marked && k < i && was[k].Found? && IsHelped(p, was, n, k)
    ensures StopAt(p, marked, n) != null && was[k].node.order < StopAt(p, marked, n).order
  {
    var j: nat, e :| e in p.doc && Helps(p, was, j, e, n, k);
    if e != was[j].node {
      CoveredReaches(p, marks.Keys, Next(was[j].node, p.dir), e);
    }
    assert e in marks;
    StopsByMark(p, marked, n, e);
  }

  /** Where the mark of a node leads. */
  lemma MarkLeads(p: Pass, was: seq<Slot>, marks: map<Node, nat>, i: nat, n: Node)
    requires p.Ok() && InDocument(p, was) && p.skip == {} && i <= |was| && Tracked(p, was, marks, i) && n in marks
    ensures var m := marks[n];
            && m < i && was[m].Found? && n in p.doc
            && (!p.hit(n) ==> p.NearestOf(was[m]) == p.Nearest(n))
            && (p.hit(n) && n != was[m].node ==> p.NearestOf(was[m]) == n)
            && (n == was[m].node ==> p.NearestOf(was[m]) != n)
  {
    NearestIsFurther(p, Next(n, p.dir));
  }

  lemma FirstListing(was: seq<Slot>, m: nat) returns (k: nat)
    requires m < |was| && was[m].Found? && was[m].node.nodeType == 1
    ensures k <= m && FirstListed(was, k) && was[k] == was[m]
  {
    k := 0;
    while was[k] != was[m]
      invariant k <= m && forall j :: 0 <= j < k ==> was[j] != was[m]
      decreases m - k
    {
      k := k + 1;
    }
  }

  /** All slots before `i` hold plain answers. */
  ghost predicate Right(c: Check, was: seq<Slot>, slots: seq<Slot>, i: nat)
    requires c.Ok() && InDocument(c.Plain(), was) && i <= |was|
  {
    |slots| == |was| && forall k :: 0 <= k < i ==> slots[k] == Report(c.Plain().NearestOf(was[k]), c.asTrue)
  }

  ghost predicate OneHit(c: Check) {
    c.asTrue ==> forall m, n :: m in c.doc && n in c.doc && c.hit(m) && c.hit(n) ==> m == n
  }

  /** What ends the walk of slot `i` is right exactly under the condition. */
  lemma StopIsRight(c: Check, was: seq<Slot>, b: Board, i: nat, start: Node)
    requires c.Ok() && InDocument(c.Plain(), was) && c.Siblings() && OneHit(c) && i < |was| && was[i] == Found(start)
    requires Right(c, was, b.slots, i) && Tracked(c.Plain(), was, b.marks, i)
    ensures var marks := Started(c, b.marks, i, start);
            var n := Next(start, c.dir);
            var stop := StopAt(c.Plain(), marks.Keys, n);
            && (Outcome(c, b.(marks := marks), stop) == Report(c.Plain().Nearest(n), c.asTrue) <==> PlainAt(c.Plain(), was, i))
            && (PlainAt(c.Plain(), was, i) && stop != null && stop in marks && c.hit(stop) ==>
                  forall k :: 0 <= k < i && was[k].Found? && was[k].node.nodeType == 1 ==> was[k].node != stop)
  {
    var p := c.Plain();
    var marks := Started(c, b.marks, i, start);
    var n := Next(start, c.dir);
    var stop := StopAt(p, marks.Keys, n);
    StopIsBehind(p, marks.Keys, n);
    StopIsEarlier(p, marks.Keys, n);
    if stop != null && stop in marks {
      assert stop in b.marks && marks[stop] == b.marks[stop];
      var m := b.marks[stop];
      MarkLeads(p, was, b.marks, i, stop);
      NearestIsFurther(p, Next(was[m].node, c.dir));
      NearestIsFurther(p, n);
      if c.hit(stop) {
        if stop == was[m].node {
          OwnMarkIsWrong(p, was, b.marks, marks.Keys, i, m, stop);
        }
      } else {
        MarkIsRight(p, was, b.marks, i, n, stop);
      }
    }
  }

  /** A walk that comes to a hitting element of the set, marked by itself, misses it. */
  lemma OwnMarkIsWrong(p: Pass, was: seq<Slot>, marks: map<Node, nat>, marked: set<Node>, i: nat, m: nat, stop: Node)
    requires p.Ok() && InDocument(p, was) && p.skip == {} && i < |was| && was[i].Found? && Tracked(p, was, marks, i)
    requires marks.Keys <= marked && m < i && was[m] == Found(stop) && stop.nodeType == 1
    requires var n := Next(was[i].node, p.dir); StopAt(p, marked, n) == stop && p.Nearest(n) == stop
    ensures !PlainAt(p, was, i)
  {
    var n := Next(was[i].node, p.dir);
    var k := FirstListing(was, m);
    if IsHelped(p, was, n, k) {
      HelpedStops(p, was, marks, marked, i, n, k);
    }
  }

  lemma MarkIsRight(p: Pass, was: seq<Slot>, marks: map<Node, nat>, i: nat, n: Node?, stop: Node)
    requires p.Ok() && InDocument(p, was) && p.skip == {} && i < |was| && was[i].Found? && Tracked(p, was, marks, i)
    requires n == Next(was[i].node, p.dir) && stop in marks && stop in p.doc && !p.hit(stop) && p.Behind(n, stop)
    requires p.Nearest(n) == p.Nearest(stop)
    ensures PlainAt(p, was, i)
  {
    forall k | 0 <= k < i && FirstListed(was, k) && p.NearestOf(was[i]) == was[k].node
      ensures IsHelped(p, was, n, k)
    {
      HelpedBefore(p, was, n, stop, k);
    }
  }

  // ------------------------------------------------------------- the invariants kept

  lemma OriginsKept(c: Check, was: seq<Slot>, marks: map<Node, nat>, i: nat, start: Node, trail: set<Node>)
    requires c.Ok() && InDocument(c.Plain(), was) && c.Siblings() && i < |was| && was[i] == Found(start)
    requires Origins(c.Plain(), was, marks, i)
    requires var n := Next(start, c.dir); forall t :: t in trail ==> OnTrail(c.Plain(), Started(c, marks, i, start).Keys, n, t)
    ensures Origins(c.Plain(), was, Started(c, marks, i, start) + AllTo(trail, i), i + 1)
  {
    var p := c.Plain();
    var n := Next(start, c.dir);
    var begun := Started(c, marks, i, start);
    forall t | t in trail
      ensures ComesBy(p, start, t) && t in p.doc && t.nodeType == 1
    {
      assert OnTrail(p, begun.Keys, n, t);
      BehindIsEarlier(p, n, t);
    }
  }

  lemma ListedKept(c: Check, was: seq<Slot>, marks: map<Node, nat>, i: nat, start: Node, trail: set<Node>)
    requires c.Siblings() && i < |was| && was[i] == Found(start) && Listed(c.Plain(), was, marks, i)
    requires forall t :: t in trail ==> t !in Started(c, marks, i, start)
    ensures Listed(c.Plain(), was, Started(c, marks, i, start) + AllTo(trail, i), i + 1)
  {
  }

  lemma ClosedKept(c: Check, was: seq<Slot>, marks: map<Node, nat>, i: nat, start: Node)
    requires c.Ok() && InDocument(c.Plain(), was) && c.Siblings() && i < |was| && was[i] == Found(start)
    requires Tracked(c.Plain(), was, marks, i)
    ensures var n := Next(start, c.dir);
            var begun := Started(c, marks, i, start).Keys;
            var all := begun + Trail(c, begun, n);
            Closed(c.Plain(), all) && WalksCovered(c.Plain(), was, all, i + 1)
  {
    var p := c.Plain();
    var n := Next(start, c.dir);
    var begun := Started(c, marks, i, start).Keys;
    var all := begun + Trail(c, begun, n);
    TrailCovers(c, begun, all, n);
    forall m | m in all
      ensures m in p.doc && (!p.hit(m) ==> Covered(p, all, Next(m, p.dir)))
    {
      if m in marks && !p.hit(m) { CoveredMore(p, marks.Keys, all, Next(m, p.dir)); }
    }
    forall k | 0 <= k < i && was[k].Found?
      ensures Covered(p, all, Next(was[k].node, p.dir))
    {
      CoveredMore(p, marks.Keys, all, Next(was[k].node, p.dir));
    }
  }

  /** A mark that leads to the element of slot `i` helps from now on. */
  lemma OldMarkHelps(p: Pass, was: seq<Slot>, marks: map<Node, nat>, i: nat, n: Node)
    requires p.Ok() && InDocument(p, was) && p.skip == {} && i < |was| && Tracked(p, was, marks, i)
    requires n in marks && n in p.doc && FirstListed(was, i) && !p.hit(n) && p.Nearest(n) == was[i].node
    ensures IsHelped(p, was, n, i)
  {
    var m := marks[n];
    MarkLeads(p, was, marks, i, n);
    NearestIsFurther(p, Next(n, p.dir));
    assert p.Behind(n, n);
    assert Helps(p, was, m, n, n, i);
  }

  /** What the walk of slot `i` marks is helped by the mark at which it stops. */
  lemma NewMarkIsHelped(c: Check, was: seq<Slot>, marks: map<Node, nat>, i: nat, start: Node, t: Node, k: nat)
    requires c.Ok() && InDocument(c.Plain(), was) && c.Siblings() && i < |was| && was[i] == Found(start)
    requires Tracked(c.Plain(), was, marks, i)
    requires var p := c.Plain();
             var begun := Started(c, marks, i, start).Keys;
             var n := Next(start, c.dir);
             var stop := StopAt(p, begun, n);
             && t in p.doc && (t == start || OnTrail(p, begun, n, t)) && !p.hit(t)
             && k <= i && FirstListed(was, k) && p.Nearest(t) == was[k].node
             && (stop != null && stop in begun && p.hit(stop) ==>
                   forall k :: 0 <= k < i && was[k].Found? && was[k].node.nodeType == 1 ==> was[k].node != stop)
    ensures IsHelped(c.Plain(), was, t, k)
  {
    var p := c.Plain();
    var begun := Started(c, marks, i, start).Keys;
    var n := Next(start, c.dir);
    var stop := StopAt(p, begun, n);
    StopIsBehind(p, begun, n);
    StopIsEarlier(p, begun, n);
    NearestIsFurther(p, n);
    assert p.Nearest(t) == p.Nearest(n);
    assert k != i && stop != null;
    assert stop in marks && !p.hit(stop);
    assert IsHelped(p, was, stop, k);
    assert p.Behind(t, stop);
    HelpedBefore(p, was, t, stop, k);
  }

  lemma HelpedKept(c: Check, was: seq<Slot>, marks: map<Node, nat>, i: nat, start: Node)
    requires c.Ok() && InDocument(c.Plain(), was) && c.Siblings() && i < |was| && was[i] == Found(start)
    requires Tracked(c.Plain(), was, marks, i)
    requires var begun := Started(c, marks, i, start).Keys;
             var stop := StopAt(c.Plain(), begun, Next(start, c.dir));
             (stop != null && stop in begun && c.hit(stop) ==>
                forall k :: 0 <= k < i && was[k].Found? && was[k].node.nodeType == 1 ==> was[k].node != stop)
    ensures var begun := Started(c, marks, i, start).Keys;
            Helped(c.Plain(), was, begun + Trail(c, begun, Next(start, c.dir)), i + 1)
  {
    var p := c.Plain();
    var n := Next(start, c.dir);
    var begun := Started(c, marks, i, start).Keys;
    TrailIs(c, p, begun, n);
    forall m, k | m in begun + Trail(c, begun, n) && m in p.doc && 0 <= k < i + 1 && FirstListed(was, k) && !p.hit(m) && p.Nearest(m) == was[k].node
      ensures IsHelped(p, was, m, k)
    {
      if m in marks && m != start {
        if k == i { OldMarkHelps(p, was, marks, i, m); }
      } else {
        NewMarkIsHelped(c, was, marks, i, start, m, k);
      }
    }
  }

  /** One round of the pass: right again exactly under the condition, and then everything is kept. */
  lemma StepPlain(c: Check, was: seq<Slot>, b: Board, i: nat)
    requires c.Ok() && InDocument(c.Plain(), was) && c.Siblings() && OneHit(c) && i < |was|
    requires Right(c, was, b.slots, i) && b.slots[i] == was[i] && Tracked(c.Plain(), was, b.marks, i)
    ensures var r := StepSlot(c, b, i);
            && (Right(c, was, r.slots, i + 1) <==> PlainAt(c.Plain(), was, i))
            && (PlainAt(c.Plain(), was, i) ==> Tracked(c.Plain(), was, r.marks, i + 1))
  {
    if was[i].Found? {
      var start := was[i].node;
      var begun := Started(c, b.marks, i, start);
      var n := Next(start, c.dir);
      WalkIs(c, b.(marks := begun), i, n);
      StopIsRight(c, was, b, i, start);
      if PlainAt(c.Plain(), was, i) {
        TrackedKept(c, was, b.marks, i, start);
      }
    }
  }

  lemma TrackedKept(c: Check, was: seq<Slot>, marks: map<Node, nat>, i: nat, start: Node)
    requires c.Ok() && InDocument(c.Plain(), was) && c.Siblings() && i < |was| && was[i] == Found(start)
    requires Tracked(c.Plain(), was, marks, i)
    requires var begun := Started(c, marks, i, start).Keys;
             var stop := StopAt(c.Plain(), begun, Next(start, c.dir));
             (stop != null && stop in begun && c.hit(stop) ==>
                forall k :: 0 <= k < i && was[k].Found? && was[k].node.nodeType == 1 ==> was[k].node != stop)
    ensures var begun := Started(c, marks, i, start);
            Tracked(c.Plain(), was, begun + AllTo(Trail(c, begun.Keys, Next(start, c.dir)), i), i + 1)
  {
    var begun := Started(c, marks, i, start);
    var trail := Trail(c, begun.Keys, Next(start, c.dir));
    TrailIs(c, c.Plain(), begun.Keys, Next(start, c.dir));
    OriginsKept(c, was, marks, i, start, trail);
    ListedKept(c, was, marks, i, start, trail);
    ClosedKept(c, was, marks, i, start);
    HelpedKept(c, was, marks, i, start);
    assert (begun + AllTo(trail, i)).Keys == begun.Keys + trail;
  }

  /** After `i` rounds the answers are plain exactly if the condition holds of the first `i` slots. */
  ghost predicate PlainSoFar(c: Check, was: seq<Slot>, b: Board, i: nat)
    requires c.Ok() && InDocument(c.Plain(), was) && i <= |was|
  {
    && (Right(c, was, b.slots, i) <==> PlainTo(c.Plain(), was, i))
    && (PlainTo(c.Plain(), was, i) ==> Tracked(c.Plain(), was, b.marks, i))
  }

  lemma PlainStep(c: Check, was: seq<Slot>, b: Board, i: nat)
    requires c.Ok() && InDocument(c.Plain(), was) && c.Siblings() && OneHit(c) && i < |was| == |b.slots|
    requires PlainSoFar(c, was, b, i) && b.slots[i] == was[i]
    ensures PlainSoFar(c, was, StepSlot(c, b, i), i + 1)
  {
    if Right(c, was, b.slots, i) {
      StepPlain(c, was, b, i);
    }
  }

  lemma {:induction false} StepsPlain(c: Check, was: seq<Slot>, i: nat)
    requires c.Ok() && InDocument(c.Plain(), was) && c.Siblings() && OneHit(c) && i <= |was|
    ensures PlainSoFar(c, was, Steps(c, was, i), i)
  {
    if i == 0 {
      PlainStart(c, was);
    } else {
      StepsPlain(c, was, i - 1);
      NextPlain(c, was, i - 1);
    }
  }

  lemma PlainStart(c: Check, was: seq<Slot>)
    requires c.Ok() && InDocument(c.Plain(), was)
    ensures PlainSoFar(c, was, Board(map[], was), 0)
  {
  }

  lemma NextPlain(c: Check, was: seq<Slot>, i: nat)
    requires c.Ok() && InDocument(c.Plain(), was) && c.Siblings() && OneHit(c) && i < |was|
    requires PlainSoFar(c, was, Steps(c, was, i), i)
    ensures PlainSoFar(c, was, Steps(c, was, i + 1), i + 1)
  {
    PlainStep(c, was, Steps(c, was, i), i);
  }

  /** For every set, in any order: the slots hold plain answers if and only if the condition holds; outside
      sibling passes they always do. */
  lemma PlainExactly(c: Check, was: seq<Slot>)
    requires c.Ok() && InDocument(c.Plain(), was) && OneHit(c)
    ensures Answered(c.Plain(), c.asTrue, was, Checked(c, was))
       <==> (c.Siblings() ==> PlainTo(c.Plain(), was, |was|))
  {
    if c.Siblings() {
      StepsPlain(c, was, |was|);
    } else {
      RegularIsOutside(c, was);
    }
  }
}
