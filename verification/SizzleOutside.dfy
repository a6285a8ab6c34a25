/** What the marked walks find in a regular set: the nearest matches outside the set. */
module SizzleOutside {
  import opened SizzlePass

  /** The first `i` slots are answered, every mark leads to the answer of its node, and a sibling pass has
      marked the elements it came by. */
  ghost predicate Outside(c: Check, was: seq<Slot>, b: Board, i: nat)
    requires c.Ok() && InDocument(c.Plain(), was) && i <= |was|
  {
    var p := c.Over(was);
    && |b.slots| == |was|
    && (forall k :: 0 <= k < i ==> b.slots[k] == Report(p.NearestOf(was[k]), c.asTrue))
    && (forall k :: i <= k < |was| ==> b.slots[k] == was[k])
    && (forall n :: n in b.marks ==> n in c.doc && b.marks[n] < i && b.slots[b.marks[n]] == Report(p.Nearest(n), c.asTrue))
    && (c.Siblings() ==> StartsMarked(was, b.marks, i))
  }

  ghost predicate StartsMarked(slots: seq<Slot>, marks: map<Node, nat>, i: nat)
    requires i <= |slots|
  {
    forall k :: 0 <= k < i && slots[k].Found? && slots[k].node.nodeType == 1 ==> slots[k].node in marks
  }

  /** An unmarked hit at which the walk of slot `i` stops is no element to be passed over. */
  lemma UnmarkedIsNoStart(c: Check, was: seq<Slot>, marks: map<Node, nat>, i: nat, stop: Node)
    requires c.Ok() && InDocument(c.Plain(), was) && i < |was| && was[i].Found?
    requires var p := c.Over(was);
             Regular(p, was) && c.Plain().Behind(Next(was[i].node, c.dir), stop) && p.hit(stop) && stop !in marks
    requires c.Siblings() ==> StartsMarked(was, marks, i) && stop != was[i].node
    ensures stop !in c.Over(was).skip
  {
    SameWalk(c.Plain(), c.Over(was), Next(was[i].node, c.dir), stop);
  }

  /** Where the walk of slot `i` ends, there is its answer. */
  lemma StopIsAnswer(c: Check, was: seq<Slot>, b: Board, i: nat, start: Node)
    requires c.Ok() && InDocument(c.Plain(), was) && i < |was| && was[i] == Found(start)
    requires Regular(c.Over(was), was) && Outside(c, was, b, i)
    ensures var n := Next(start, c.dir);
            var stop := StopAt(c.Plain(), Started(c, b.marks, i, start).Keys, n);
            && (stop != null && stop in Started(c, b.marks, i, start) ==> stop in b.marks && stop != start)
            && Outcome(c, b.(marks := Started(c, b.marks, i, start)), stop) == Report(c.Over(was).Nearest(n), c.asTrue)
  {
    var p := c.Over(was);
    var n := Next(start, c.dir);
    var marks := Started(c, b.marks, i, start);
    var stop := StopAt(c.Plain(), marks.Keys, n);
    StopIsBehind(c.Plain(), marks.Keys, n);
    SameStop(c.Plain(), p, marks.Keys, n);
    StopIsEarlier(c.Plain(), marks.Keys, n);
    PassedOver(p, marks.Keys, n);
    if stop != null && stop !in marks {
      UnmarkedIsNoStart(c, was, b.marks, i, stop);
    }
  }

  lemma {:induction false} SameStop(p: Pass, q: Pass, marked: set<Node>, n: Node?)
    requires p.Ok() && p.Has(n) && q == p.(skip := q.skip)
    ensures q.Ok() && StopAt(q, marked, n) == StopAt(p, marked, n)
    decreases if n == null then 0 else n.order + 1
  {
    if n != null && n !in marked && !p.hit(n) {
      SameStop(p, q, marked, Next(n, p.dir));
    }
  }

  lemma {:induction false} PassedOver(p: Pass, marked: set<Node>, n: Node?)
    requires p.Ok() && p.Has(n)
    ensures p.Has(StopAt(p, marked, n)) && p.Nearest(n) == p.Nearest(StopAt(p, marked, n))
    decreases if n == null then 0 else n.order + 1
  {
    if n != null && n !in marked && !p.hit(n) {
      PassedOver(p, marked, Next(n, p.dir));
    }
  }

  /** One round keeps everything. */
  lemma StepOutside(c: Check, was: seq<Slot>, b: Board, i: nat)
    requires c.Ok() && InDocument(c.Plain(), was) && i < |was|
    requires Regular(c.Over(was), was) && Outside(c, was, b, i)
    ensures Outside(c, was, StepSlot(c, b, i), i + 1)
  {
    if was[i].Found? {
      var start := was[i].node;
      var marks := Started(c, b.marks, i, start);
      var n := Next(start, c.dir);
      WalkIs(c, b.(marks := marks), i, n);
      StopIsAnswer(c, was, b, i, start);
      TrailIs(c, c.Over(was), marks.Keys, n);
      MarksLead(c, was, b, i, start, Trail(c, marks.Keys, n));
    }
  }

  lemma MarksLead(c: Check, was: seq<Slot>, b: Board, i: nat, start: Node, trail: set<Node>)
    requires c.Ok() && InDocument(c.Plain(), was) && i < |was| && was[i] == Found(start) && Outside(c, was, b, i)
    requires var p := c.Over(was); forall t :: t in trail ==> t in c.doc && p.Nearest(t) == p.Nearest(Next(start, c.dir))
    ensures var p := c.Over(was);
            var answer := Report(p.NearestOf(was[i]), c.asTrue);
            Outside(c, was, Board(Started(c, b.marks, i, start) + AllTo(trail, i), b.slots[i := answer]), i + 1)
  {
    var p := c.Over(was);
    var answer := Report(p.NearestOf(was[i]), c.asTrue);
    var marks := Started(c, b.marks, i, start) + AllTo(trail, i);
    var slots := b.slots[i := answer];
    forall n | n in marks
      ensures n in c.doc && marks[n] < i + 1 && slots[marks[n]] == Report(p.Nearest(n), c.asTrue)
    {
      if n in trail {
        assert marks[n] == i;
      } else if n == start && c.Siblings() && start.nodeType == 1 {
        assert marks[n] == i && start in p.skip;
      } else {
        assert n in b.marks && marks[n] == b.marks[n];
      }
    }
    if c.Siblings() {
      StartsMarkedNext(was, b.marks, marks, i);
    }
  }

  lemma StartsMarkedNext(was: seq<Slot>, marks: map<Node, nat>, more: map<Node, nat>, i: nat)
    requires i < |was| && StartsMarked(was, marks, i) && marks.Keys <= more.Keys
    requires was[i].Found? && was[i].node.nodeType == 1 ==> was[i].node in more
    ensures StartsMarked(was, more, i + 1)
  {
  }

  lemma {:induction false} StepsOutside(c: Check, was: seq<Slot>, i: nat)
    requires c.Ok() && InDocument(c.Plain(), was) && Regular(c.Over(was), was) && i <= |was|
    ensures Outside(c, was, Steps(c, was, i), i)
  {
    if i != 0 {
      StepsOutside(c, was, i - 1);
      StepOutside(c, was, Steps(c, was, i - 1), i - 1);
    }
  }

  /** In a regular set every slot ends with the nearest match outside the set. */
  lemma RegularIsOutside(c: Check, was: seq<Slot>)
    requires c.Ok() && InDocument(c.Plain(), was) && Regular(c.Over(was), was)
    ensures Answered(c.Over(was), c.asTrue, was, Checked(c, was))
  {
    StepsOutside(c, was, |was|);
  }
}
