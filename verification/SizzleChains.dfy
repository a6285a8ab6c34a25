/** What a pass delivers, said by the links of the nodes alone. */
module SizzleChains {
  import opened SizzlePass
  import SizzlePlain

  ghost predicate ParentsPrecede(doc: set<Node>) {
    forall n :: n in doc && n.parentNode != null ==> n.parentNode in doc && n.parentNode.order < n.order
  }

  ghost predicate SiblingsPrecede(doc: set<Node>) {
    forall n :: n in doc && n.previousSibling != null ==> n.previousSibling in doc && n.previousSibling.order < n.order
  }

  /** The ancestors of `n`, from its parent up. */
  ghost function Ancestors(doc: set<Node>, n: Node): (r: seq<Node>)
    requires ParentsPrecede(doc) && n in doc
    ensures forall k :: 0 <= k < |r| ==> r[k] in doc
    decreases n.order
  {
    if n.parentNode == null then [] else [n.parentNode] + Ancestors(doc, n.parentNode)
  }

  /** The siblings before `n`, from its neighbour back. */
  ghost function Preceding(doc: set<Node>, n: Node): (r: seq<Node>)
    requires SiblingsPrecede(doc) && n in doc
    ensures forall k :: 0 <= k < |r| ==> r[k] in doc
    decreases n.order
  {
    if n.previousSibling == null then [] else [n.previousSibling] + Preceding(doc, n.previousSibling)
  }

  /** `r` is the first of the nodes that hits, or there is none. */
  ghost predicate IsFirst(nodes: seq<Node>, hit: Node -> bool, r: Node?) {
    if r == null then forall k :: 0 <= k < |nodes| ==> !hit(nodes[k])
    else exists k :: 0 <= k < |nodes| && nodes[k] == r && hit(r) && forall j :: 0 <= j < k ==> !hit(nodes[j])
  }

  /** A slot tells of the first hit: by the node, or by `true` where the caller knows the node. */
  ghost predicate Tells(nodes: seq<Node>, hit: Node -> bool, asTrue: bool, slot: Slot) {
    match slot
    case Absent => IsFirst(nodes, hit, null)
    case Found(n) => !asTrue && IsFirst(nodes, hit, n)
    case Yes => asTrue && exists k :: 0 <= k < |nodes| && hit(nodes[k])
  }

  /** Every slot with a node tells of its first ancestor that hits; the others are false. */
  ghost predicate TellAncestors(doc: set<Node>, hit: Node -> bool, asTrue: bool, was: seq<Slot>, now: seq<Slot>)
    requires ParentsPrecede(doc) && forall k :: 0 <= k < |was| && was[k].Found? ==> was[k].node in doc
  {
    |now| == |was| && forall k :: 0 <= k < |was| ==>
      if was[k].Found? then Tells(Ancestors(doc, was[k].node), hit, asTrue, now[k]) else now[k] == Absent
  }

  /** The same for the siblings before it. */
  ghost predicate TellPreceding(doc: set<Node>, hit: Node -> bool, asTrue: bool, was: seq<Slot>, now: seq<Slot>)
    requires SiblingsPrecede(doc) && forall k :: 0 <= k < |was| && was[k].Found? ==> was[k].node in doc
  {
    |now| == |was| && forall k :: 0 <= k < |was| ==>
      if was[k].Found? then Tells(Preceding(doc, was[k].node), hit, asTrue, now[k]) else now[k] == Absent
  }

  /** The links of a document lead to earlier nodes. */
  lemma DocumentPrecedes(doc: set<Node>, dir: Direction)
    requires Document(doc, dir)
    ensures if dir.ParentNode? then ParentsPrecede(doc) else SiblingsPrecede(doc)
  {
    forall n | n in doc
      ensures dir.ParentNode? && n.parentNode != null ==> n.parentNode in doc && n.parentNode.order < n.order
      ensures dir.PreviousSibling? && n.previousSibling != null ==> n.previousSibling in doc && n.previousSibling.order < n.order
    {
      var next := Next(n, dir);
    }
  }

  /** The nodes that the walk from `n` may come by. */
  ghost function Chain(p: Pass, n: Node): seq<Node>
    requires (if p.dir.ParentNode? then ParentsPrecede(p.doc) else SiblingsPrecede(p.doc)) && n in p.doc
  {
    if p.dir.ParentNode? then Ancestors(p.doc, n) else Preceding(p.doc, n)
  }

  lemma FirstLater(nodes: seq<Node>, hit: Node -> bool, r: Node?)
    requires nodes != [] && !hit(nodes[0]) && IsFirst(nodes[1..], hit, r)
    ensures IsFirst(nodes, hit, r)
  {
    if r == null {
      forall k | 0 <= k < |nodes|
        ensures !hit(nodes[k])
      {
        if k > 0 { assert nodes[1..][k - 1] == nodes[k]; }
      }
    } else {
      var k :| 0 <= k < |nodes[1..]| && nodes[1..][k] == r && hit(r) && forall j :: 0 <= j < k ==> !hit(nodes[1..][j]);
      assert nodes[k + 1] == r;
      forall j | 0 <= j < k + 1
        ensures !hit(nodes[j])
      {
        if j > 0 { assert nodes[1..][j - 1] == nodes[j]; }
      }
    }
  }

  /** The plain walk finds the first hit of the chain. */
  lemma {:induction false} NearestIsFirst(p: Pass, n: Node)
    requires p.Ok() && p.skip == {} && n in p.doc
    ensures if p.dir.ParentNode? then ParentsPrecede(p.doc) else SiblingsPrecede(p.doc)
    ensures IsFirst(Chain(p, n), p.hit, p.Nearest(Next(n, p.dir)))
    decreases n.order
  {
    DocumentPrecedes(p.doc, p.dir);
    var next, nodes := Next(n, p.dir), Chain(p, n);
    if next != null {
      assert nodes == [next] + Chain(p, next) && nodes[0] == next;
      if !p.hit(next) {
        NearestIsFirst(p, next);
        FirstLater(nodes, p.hit, p.Nearest(next));
      }
    }
  }

  /** Plain answers are those that the links give. */
  lemma AnsweredIsTold(p: Pass, asTrue: bool, was: seq<Slot>, now: seq<Slot>)
    requires p.Ok() && p.skip == {} && InDocument(p, was)
    ensures if p.dir.ParentNode? then ParentsPrecede(p.doc) else SiblingsPrecede(p.doc)
    ensures p.dir.ParentNode? ==> (Answered(p, asTrue, was, now) <==> TellAncestors(p.doc, p.hit, asTrue, was, now))
    ensures p.dir.PreviousSibling? ==> (Answered(p, asTrue, was, now) <==> TellPreceding(p.doc, p.hit, asTrue, was, now))
  {
    DocumentPrecedes(p.doc, p.dir);
    if |now| == |was| {
      forall k | 0 <= k < |was|
        ensures now[k] == Report(p.NearestOf(was[k]), asTrue)
           <==> if was[k].Found? then Tells(Chain(p, was[k].node), p.hit, asTrue, now[k]) else now[k] == Absent
      {
        if was[k].Found? {
          NearestIsFirst(p, was[k].node);
        }
      }
    }
  }

  lemma TellsSame(nodes: seq<Node>, hit: Node -> bool, same: Node -> bool, asTrue: bool, slot: Slot)
    requires forall k :: 0 <= k < |nodes| ==> hit(nodes[k]) == same(nodes[k])
    ensures Tells(nodes, hit, asTrue, slot) ==> Tells(nodes, same, asTrue, slot)
  {
    if slot.Yes? && Tells(nodes, hit, asTrue, slot) {
      var k :| 0 <= k < |nodes| && hit(nodes[k]);
      assert same(nodes[k]);
    }
    if slot.Found? && Tells(nodes, hit, asTrue, slot) {
      var k :| 0 <= k < |nodes| && nodes[k] == slot.node && hit(slot.node) && forall j :: 0 <= j < k ==> !hit(nodes[j]);
      assert same(nodes[k]);
    }
  }

  // ------------------------------------------- the condition of sibling passes

  /** `e` stands between an earlier listed node `j`, or is it, and its first hit, the k-th node; the walk from
      the i-th node comes by `e` on its way to the same hit. */
  ghost predicate StandsBetween(doc: set<Node>, hit: Node -> bool, was: seq<Slot>, j: nat, e: Node, i: nat, k: nat)
    requires SiblingsPrecede(doc) && i < |was| && k < |was| && was[i].Found? && was[k].Found?
    requires forall m :: 0 <= m < |was| && was[m].Found? ==> was[m].node in doc
  {
    && j < k && was[j].Found? && IsFirst(Preceding(doc, was[j].node), hit, was[k].node)
    && e in doc && e.nodeType == 1 && !hit(e) && was[k].node in Preceding(doc, e)
    && e in Preceding(doc, was[i].node) && (e == was[j].node || e in Preceding(doc, was[j].node))
  }

  /** If the first hit before the i-th node is an element first listed at an earlier place k, then some element
      stands between. */
  ghost predicate Unspoilt(doc: set<Node>, hit: Node -> bool, was: seq<Slot>, i: nat)
    requires SiblingsPrecede(doc) && i < |was|
    requires forall m :: 0 <= m < |was| && was[m].Found? ==> was[m].node in doc
  {
    forall k :: 0 <= k < i && SizzlePlain.FirstListed(was, k) && was[i].Found?
                && IsFirst(Preceding(doc, was[i].node), hit, was[k].node) ==>
      exists j: nat, e: Node :: e in doc && StandsBetween(doc, hit, was, j, e, i, k)
  }

  ghost predicate AllUnspoilt(doc: set<Node>, hit: Node -> bool, was: seq<Slot>)
    requires SiblingsPrecede(doc) && forall m :: 0 <= m < |was| && was[m].Found? ==> was[m].node in doc
  {
    forall i :: 0 <= i < |was| ==> Unspoilt(doc, hit, was, i)
  }

  lemma {:induction false} BehindIsListed(p: Pass, n: Node, e: Node)
    requires p.Ok() && p.dir.PreviousSibling? && n in p.doc
    ensures SiblingsPrecede(p.doc) && (p.Behind(Next(n, p.dir), e) <==> e in Preceding(p.doc, n))
    decreases n.order
  {
    DocumentPrecedes(p.doc, p.dir);
    var next := Next(n, p.dir);
    if next != null {
      assert Preceding(p.doc, n) == [next] + Preceding(p.doc, next);
      BehindIsListed(p, next, e);
    }
  }

  /** A node on the way is before the first hit exactly when the hit is first for it. */
  lemma {:induction false} OnTheWay(p: Pass, n: Node?, e: Node)
    requires p.Ok() && p.skip == {} && p.Has(n) && p.Behind(n, e) && e in p.doc && !p.hit(e) && p.Nearest(n) != null
    ensures var w := p.Nearest(n);
            && (w.order < e.order <==> p.Behind(Next(e, p.dir), w))
            && (w.order < e.order ==> p.Nearest(e) == w)
    decreases if n == null then 0 else n.order + 1
  {
    var w := p.Nearest(n);
    NearestIsFurther(p, n);
    BehindIsEarlier(p, Next(e, p.dir), w);
    BehindIsEarlier(p, n, e);
    if n == e {
      NearestIsBehind(p, Next(n, p.dir));
    } else if !p.hit(n) {
      OnTheWay(p, Next(n, p.dir), e);
    }
  }

  lemma HelpsIsBetween(p: Pass, was: seq<Slot>, j: nat, e: Node, i: nat, k: nat)
    requires p.Ok() && p.dir.PreviousSibling? && p.skip == {} && InDocument(p, was) && e in p.doc
    requires i < |was| && k < i && was[i].Found? && was[k].Found? && p.NearestOf(was[i]) == was[k].node
    ensures SiblingsPrecede(p.doc)
    ensures SizzlePlain.Helps(p, was, j, e, Next(was[i].node, p.dir), k) <==> StandsBetween(p.doc, p.hit, was, j, e, i, k)
  {
    DocumentPrecedes(p.doc, p.dir);
    if j < k && was[j].Found? {
      var start, n, w := was[j].node, Next(was[i].node, p.dir), was[k].node;
      NearestIsFirst(p, start);
      if p.NearestOf(was[j]) == w && !p.hit(e) {
        BehindIsListed(p, was[i].node, e);
        BehindIsListed(p, start, e);
        BehindIsListed(p, e, w);
        BehindIsEarlier(p, Next(start, p.dir), e);
        if p.Behind(n, e) { OnTheWay(p, n, e); }
        if p.Behind(Next(start, p.dir), e) { OnTheWay(p, Next(start, p.dir), e); }
      }
    }
  }

  lemma PlainAtIsUnspoilt(p: Pass, was: seq<Slot>, i: nat)
    requires p.Ok() && p.dir.PreviousSibling? && p.skip == {} && InDocument(p, was) && i < |was|
    ensures SiblingsPrecede(p.doc) && (SizzlePlain.PlainAt(p, was, i) <==> Unspoilt(p.doc, p.hit, was, i))
  {
    DocumentPrecedes(p.doc, p.dir);
    forall k | 0 <= k < i && SizzlePlain.FirstListed(was, k) && was[i].Found?
      ensures p.NearestOf(was[i]) == was[k].node <==> IsFirst(Preceding(p.doc, was[i].node), p.hit, was[k].node)
      ensures p.NearestOf(was[i]) == was[k].node ==>
                (SizzlePlain.IsHelped(p, was, Next(was[i].node, p.dir), k)
                 <==> exists j: nat, e: Node :: e in p.doc && StandsBetween(p.doc, p.hit, was, j, e, i, k))
    {
      var nodes := Preceding(p.doc, was[i].node);
      NearestIsFirst(p, was[i].node);
      if p.NearestOf(was[i]) == was[k].node {
        forall j: nat, e: Node | e in p.doc
          ensures SizzlePlain.Helps(p, was, j, e, Next(was[i].node, p.dir), k) <==> StandsBetween(p.doc, p.hit, was, j, e, i, k)
        {
          HelpsIsBetween(p, was, j, e, i, k);
        }
      }
    }
  }

  lemma UnspoiltSame(doc: set<Node>, hit: Node -> bool, same: Node -> bool, was: seq<Slot>, i: nat)
    requires SiblingsPrecede(doc) && i < |was| && forall m :: 0 <= m < |was| && was[m].Found? ==> was[m].node in doc
    requires forall n :: n in doc ==> hit(n) == same(n)
    requires Unspoilt(doc, hit, was, i)
    ensures Unspoilt(doc, same, was, i)
  {
    forall k | 0 <= k < i && SizzlePlain.FirstListed(was, k) && was[i].Found?
               && IsFirst(Preceding(doc, was[i].node), same, was[k].node)
      ensures exists j: nat, e: Node :: e in doc && StandsBetween(doc, same, was, j, e, i, k)
    {
      TellsSame(Preceding(doc, was[i].node), same, hit, false, was[k]);
      var j: nat, e: Node :| e in doc && StandsBetween(doc, hit, was, j, e, i, k);
      TellsSame(Preceding(doc, was[j].node), hit, same, false, was[k]);
      assert StandsBetween(doc, same, was, j, e, i, k);
    }
  }

  /** What a pass delivers, by the links: a parent pass the first ancestors that hit; a sibling pass the first
      preceding siblings, in HTML exactly when no slot is spoilt. */
  lemma DeliveredIsTold(c: Check, hit: Node -> bool, was: seq<Slot>)
    requires c.Ok() && InDocument(c.Plain(), was) && SizzlePlain.OneHit(c) && forall n :: n in c.doc ==> hit(n) == c.hit(n)
    ensures c.dir.ParentNode? ==> ParentsPrecede(c.doc) && TellAncestors(c.doc, hit, c.asTrue, was, Checked(c, was))
    ensures c.dir.PreviousSibling? ==>
              SiblingsPrecede(c.doc) &&
              (TellPreceding(c.doc, hit, c.asTrue, was, Checked(c, was))
               <==> c.isXML || AllUnspoilt(c.doc, hit, was))
  {
    var now := Checked(c, was);
    SizzlePlain.PlainExactly(c, was);
    AnsweredIsTold(c.Plain(), c.asTrue, was, now);
    forall k | 0 <= k < |was| && was[k].Found?
      ensures var nodes := Chain(c.Plain(), was[k].node);
              Tells(nodes, hit, c.asTrue, now[k]) <==> Tells(nodes, c.hit, c.asTrue, now[k])
    {
      TellsSame(Chain(c.Plain(), was[k].node), hit, c.hit, c.asTrue, now[k]);
      TellsSame(Chain(c.Plain(), was[k].node), c.hit, hit, c.asTrue, now[k]);
    }
    if c.dir.PreviousSibling? { PlainToIsUnspoilt(c, hit, was); }
  }

  lemma PlainToIsUnspoilt(c: Check, hit: Node -> bool, was: seq<Slot>)
    requires c.Ok() && InDocument(c.Plain(), was) && c.dir.PreviousSibling? && forall n :: n in c.doc ==> hit(n) == c.hit(n)
    ensures SiblingsPrecede(c.doc)
    ensures SizzlePlain.PlainTo(c.Plain(), was, |was|) <==> AllUnspoilt(c.doc, hit, was)
  {
    DocumentPrecedes(c.doc, c.dir);
    forall i | 0 <= i < |was|
      ensures SizzlePlain.PlainAt(c.Plain(), was, i) <==> Unspoilt(c.doc, hit, was, i)
    {
      PlainAtIsUnspoilt(c.Plain(), was, i);
      if Unspoilt(c.doc, hit, was, i) { UnspoiltSame(c.doc, hit, c.hit, was, i); }
      if Unspoilt(c.doc, c.hit, was, i) { UnspoiltSame(c.doc, c.hit, hit, was, i); }
    }
  }
}
