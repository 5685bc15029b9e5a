/**
  The packer itself: linked nodes drawn from a free list, updated in place. Every method is tied to
  the functions on values; a link `prev` that is null stands for the address of active_head, and any
  other link for the address of prev.next.
 */
module RectPack {
  import opened Skyline
  import opened Packing
  import opened Splicing
  import opened Choosing
  import opened Runs
  import opened Grounds
  import opened Outcomes
  import opened Calls

  class Node {
    var x: int
    var y: int
    var next: Node?

    constructor ()
      ensures fresh(this)
    {
      x, y, next := 0, 0, null;
    }
  }

  /** From position i on, the nodes of ns are linked in order, and the last one ends the list. */
  ghost predicate Linked(ns: seq<Node>, i: nat)
    reads ns
  {
    && (forall j :: i <= j < |ns| - 1 ==> ns[j].next == ns[j + 1])
    && (i < |ns| ==> ns[|ns| - 1].next == null)
  }

  ghost predicate Chain(head: Node?, ns: seq<Node>)
    reads ns
  {
    && head == (if ns == [] then null else ns[0])
    && Linked(ns, 0)
  }

  ghost predicate Distinct(ns: seq<Node>) {
    forall i, j :: 0 <= i < j < |ns| ==> ns[i] != ns[j]
  }

  /** The nodes of ns hold the points of s. */
  ghost predicate Shows(ns: seq<Node>, s: Sky)
    reads ns
  {
    && |ns| == |s|
    && (forall i :: 0 <= i < |ns| ==> ns[i].x == s[i].x && ns[i].y == s[i].y)
  }

  /** stbrp__skyline_find_min_y */
  method FindMinY(first: Node, x0: int, w: int, ghost ns: seq<Node>, ghost s: Sky, ghost k: nat)
    returns (minY: int, waste: int)
    requires Linked(ns, 0) && Shows(ns, s) && k < |ns| && first == ns[k]
    requires x0 + w <= s[|s| - 1].x
    ensures minY == Probe(s, k, x0, w).minY && waste == Probe(s, k, x0, w).waste
  {
    var node := first;
    ghost var j := k;
    var x1 := x0 + w;
    minY, waste := 0, 0;
    var visited := 0;
    while node.x < x1
      invariant k <= j < |ns| && node == ns[j]
      invariant Probe(s, k, x0, w) == Visit(s, j, x0, w, Scan(minY, waste, visited))
      decreases |ns| - j
    {
      ghost var before := Scan(minY, waste, visited);
      if node.y > minY {
        waste := waste + visited * (node.y - minY);
        minY := node.y;
        if node.x < x0 {
          visited := visited + (node.next.x - x0);
        } else {
          visited := visited + (node.next.x - node.x);
        }
      } else {
        var under := node.next.x - node.x;
        if under + visited > w {
          under := w - visited;
        }
        waste := waste + under * (minY - node.y);
        visited := visited + under;
      }
      assert Scan(minY, waste, visited) == VisitStep(s, j, x0, w, before);
      node := node.next;
      j := j + 1;
    }
  }

  /** The free list after nodes i to m were moved to its front, one after the other. */
  ghost function Stacked(ns: seq<Node>, i: nat, m: nat, free: seq<Node>): (r: seq<Node>)
    requires i <= m <= |ns|
    ensures |r| == |free| + (m - i)
  {
    if m == i then free else [ns[m - 1]] + Stacked(ns, i, m - 1, free)
  }

  /** The nodes of ns from i on are distinct from each other and from those of free. */
  ghost predicate Clear(ns: seq<Node>, i: nat, free: seq<Node>) {
    && (forall a, b :: i <= a < b < |ns| ==> ns[a] != ns[b])
    && (forall a :: i <= a < |ns| ==> ns[a] !in free)
    && Distinct(free)
  }

  lemma {:induction false} StackedClear(ns: seq<Node>, i: nat, m: nat, free: seq<Node>)
    requires i <= m <= |ns| && Clear(ns, i, free)
    ensures Clear(ns, m, Stacked(ns, i, m, free))
    ensures forall n :: n in Stacked(ns, i, m, free) ==> n in free || n in ns[i..m]
    decreases m
  {
    if i < m {
      StackedClear(ns, i, m - 1, free);
      assert ns[m - 1] in ns[i..m];
      assert forall n :: n in ns[i..m - 1] ==> n in ns[i..m];
    }
  }

  /** Node m has been reached, and those from i on before it are free. */
  ghost predicate Freeing(ns: seq<Node>, i: nat, m: nat, free: seq<Node>, cur: Node, head: Node?)
    requires i <= m <= |ns|
    reads ns, Stacked(ns, i, m, free)
  {
    m < |ns| && cur == ns[m] && Linked(ns, m) && Chain(head, Stacked(ns, i, m, free))
  }

  /** Node m, which is cur, moves to the front of the free list, and the next node is reached. */
  method Release(cur: Node, head: Node?, ghost ns: seq<Node>, ghost i: nat, ghost m: nat, ghost free: seq<Node>)
    returns (next: Node)
    requires i <= m < |ns| - 1 && Clear(ns, i, free) && Freeing(ns, i, m, free, cur, head)
    modifies cur`next
    ensures Freeing(ns, i, m + 1, free, next, cur)
  {
    StackedClear(ns, i, m, free);
    assert ns[m].next == ns[m + 1];
    next := cur.next;
    cur.next := head;
  }

  lemma CutEndStep(s: Sky, m: nat, e: int)
    requires m + 1 < |s|
    ensures CutEnd(s, m, e) == if s[m + 1].x <= e then CutEnd(s, m + 1, e) else m
  {
  }

  /** The loop of the splice: the nodes covered up to e go to the free list. */
  method FreeCovered(first: Node, freeHead: Node?, e: int,
                     ghost ns: seq<Node>, ghost s: Sky, ghost i: nat, ghost free: seq<Node>,
                     ghost back: set<Node>)
    returns (cur: Node, head: Node?, ghost m: nat)
    requires forall l :: i <= l < |ns| ==> ns[l] in back
    requires i < |ns| == |s| && first == ns[i] && Linked(ns, i)
    requires forall l :: i <= l < |ns| ==> ns[l].x == s[l].x
    requires Chain(freeHead, free) && Clear(ns, i, free)
    modifies back`next
    ensures m == CutEnd(s, i, e) && i <= m < |ns| && cur == ns[m] && Linked(ns, m)
    ensures Chain(head, Stacked(ns, i, m, free))
  {
    cur, head, m := first, freeHead, i;
    ghost var end := CutEnd(s, i, e);
    while cur.next != null && cur.next.x <= e
      invariant i <= m < |ns| && CutEnd(s, m, e) == end
      invariant Freeing(ns, i, m, free, cur, head)
      decreases |ns| - m
    {
      assert m + 1 < |ns| && cur.next == ns[m + 1];
      CutEndStep(s, m, e);
      var next := Release(cur, head, ns, i, m, free);
      head, cur, m := cur, next, m + 1;
    }
    if m + 1 < |ns| {
      assert cur.next == ns[m + 1];
      CutEndStep(s, m, e);
    }
  }

  // ----- The search ------------------------------------------------------------------------------

  /** The link that leads to node k. */
  ghost function Link(ns: seq<Node>, k: nat): Node?
    requires k < |ns|
  {
    if k == 0 then null else ns[k - 1]
  }

  ghost function Better(take: bool, e: Attempt, best: Best): Best {
    if take then Best(true, e) else best
  }

  lemma LeftRound(c: Config, s: Sky, rw: int, h: int, k: nat, best: Best)
    requires Shape(s, c.width, c.height) && 0 < rw && k + 1 < |s| && s[k].x + rw <= c.width
    ensures var e := AttemptAt(s, k, s[k].x, rw);
            ChooseLeft(c, h, LeftAttempts(c, s, rw, k), best)
            == ChooseLeft(c, h, LeftAttempts(c, s, rw, k + 1), Better(TakesLeft(c, h, e, best.at), e, best))
  {
  }

  lemma RightRound(c: Config, s: Sky, rw: int, h: int, t: nat, k: nat, best: Best)
    requires Shape(s, c.width, c.height) && 0 < rw && t < |s| && rw <= s[t].x
    requires k + 1 < |s| && s[k].x <= s[t].x - rw < s[k + 1].x
    ensures s[t].x <= c.width
    ensures var e := AttemptAt(s, k, s[t].x - rw, rw);
            ChooseRight(c, h, RightAttempts(c, s, rw, t), best)
            == ChooseRight(c, h, RightAttempts(c, s, rw, t + 1), Better(TakesRight(c, h, e, best.at), e, best))
  {
    HeightIs(s, c.width, c.height, k, s[t].x - rw);
    var e, rest := AttemptAt(s, k, s[t].x - rw, rw), RightAttempts(c, s, rw, t + 1);
    assert RightAttempts(c, s, rw, t) == [e] + rest;
    assert ([e] + rest)[1..] == rest;
  }

  /** What the locals best, best_y and best_waste hold. */
  ghost predicate Holds(c: Config, ns: seq<Node>, best: Best, found: bool, link: Node?, y: int, waste: int) {
    && found == best.found && y == best.at.y
    && (c.heuristic.BestFit? ==> waste == best.at.waste)
    && (found ==> best.at.k < |ns| && link == Link(ns, best.at.k))
  }

  /** The first loop of stbrp__skyline_find_best_pos. */
  method SearchLeft(activeHead: Node, c: Config, rw: int, h: int, ghost ns: seq<Node>, ghost s: Sky)
    returns (found: bool, link: Node?, bestY: int, bestWaste: int, ghost best: Best)
    requires Shape(s, c.width, c.height) && 0 < rw
    requires Chain(activeHead, ns) && Shows(ns, s)
    ensures best == ChooseLeft(c, h, LeftAttempts(c, s, rw, 0), NoBest)
    ensures Holds(c, ns, best, found, link, bestY, bestWaste)
    ensures found ==> ns[best.at.k].x == best.at.x
  {
    found, link, bestY, bestWaste, best := false, null, BIG, BIG, NoBest;
    var node, prev: Node? := activeHead, null;
    ghost var k := 0;
    ghost var result := ChooseLeft(c, h, LeftAttempts(c, s, rw, 0), NoBest);
    while node.x + rw <= c.width
      invariant 0 <= k < |ns| && node == ns[k] && prev == Link(ns, k)
      invariant Holds(c, ns, best, found, link, bestY, bestWaste)
      invariant found ==> ns[best.at.k].x == best.at.x
      invariant ChooseLeft(c, h, LeftAttempts(c, s, rw, k), best) == result
      decreases |ns| - k
    {
      LeftRound(c, s, rw, h, k, best);
      var y, waste := FindMinY(node, node.x, rw, ns, s, k);
      var take := if c.heuristic.BottomLeft? then y < bestY
                  else y + h <= c.height && (y < bestY || (y == bestY && waste < bestWaste));
      if take {
        found, link, bestY, bestWaste := true, prev, y, waste;
        best := Best(true, AttemptAt(s, k, s[k].x, rw));
      }
      prev := node;
      node := node.next;
      k := k + 1;
    }
  }

  /** The loop that moves the left finger to the node under xpos. */
  method Advance(first: Node, before: Node?, xpos: int, ghost ns: seq<Node>, ghost s: Sky, ghost j: nat)
    returns (node: Node, prev: Node?, ghost k: nat)
    requires Linked(ns, 0) && Shows(ns, s) && j < |ns| && first == ns[j] && before == Link(ns, j)
    requires s[j].x <= xpos < s[|s| - 1].x
    ensures j <= k && k + 1 < |ns| && node == ns[k] && prev == Link(ns, k)
    ensures s[k].x <= xpos < s[k + 1].x
  {
    node, prev, k := first, before, j;
    while node.next.x <= xpos
      invariant j <= k && k + 1 < |ns| && node == ns[k] && prev == Link(ns, k)
      invariant s[k].x <= xpos && node.next == ns[k + 1]
      decreases |ns| - k
    {
      prev := node;
      node := node.next;
      k := k + 1;
    }
  }

  /** The loop that skips the nodes closer than rw to the left edge. */
  method FirstTail(head: Node, c: Config, rw: int, ghost ns: seq<Node>, ghost s: Sky)
    returns (tail: Node, ghost t: nat)
    requires Shape(s, c.width, c.height) && 0 < rw <= c.width
    requires Chain(head, ns) && Shows(ns, s)
    ensures t < |ns| && tail == ns[t] && rw <= tail.x && head.x == 0
    ensures RightAttempts(c, s, rw, t) == RightAttempts(c, s, rw, 0)
  {
    tail, t := head, 0;
    while tail.x < rw
      invariant t < |ns| && tail == ns[t]
      invariant RightAttempts(c, s, rw, t) == RightAttempts(c, s, rw, 0)
      decreases |ns| - t
    {
      tail := tail.next;
      t := t + 1;
    }
  }

  /** One right-aligned attempt: its right edge at tail, its left edge found by the other finger. */
  method TryRight(tail: Node, first: Node, before: Node?, c: Config, rw: int, ghost h: int,
                  ghost ns: seq<Node>, ghost s: Sky, ghost t: nat, ghost j: nat, ghost best: Best)
    returns (node: Node, prev: Node?, xpos: int, y: int, waste: int, ghost e: Attempt)
    requires Shape(s, c.width, c.height) && 0 < rw
    requires Linked(ns, 0) && Shows(ns, s) && t < |ns| && tail == ns[t]
    requires j < |ns| && first == ns[j] && before == Link(ns, j)
    requires rw <= tail.x && first.x <= tail.x - rw
    ensures e.k < |ns| && node == ns[e.k] && prev == Link(ns, e.k)
    ensures e == Attempt(e.k, xpos, y, waste)
    ensures tail.next == (if t + 1 < |ns| then ns[t + 1] else null)
    ensures tail.next != null ==> rw <= tail.next.x && node.x <= tail.next.x - rw
    ensures ChooseRight(c, h, RightAttempts(c, s, rw, t), best)
         == ChooseRight(c, h, RightAttempts(c, s, rw, t + 1), Better(TakesRight(c, h, e, best.at), e, best))
  {
    ghost var k;
    xpos := tail.x - rw;
    node, prev, k := Advance(first, before, xpos, ns, s, j);
    y, waste := FindMinY(node, xpos, rw, ns, s, k);
    RightRound(c, s, rw, h, t, k, best);
    e := AttemptAt(s, k, xpos, rw);
  }

  /** Whether the right-aligned attempt e replaces the best one. */
  method CompareRight(c: Config, h: int, xpos: int, y: int, waste: int, bestX: int, bestY: int, bestWaste: int,
                      ghost e: Attempt, ghost best: Attempt)
    returns (take: bool)
    requires e == Attempt(e.k, xpos, y, waste) && best == Attempt(best.k, bestX, bestY, bestWaste)
    ensures take == TakesRight(c, h, e, best)
  {
    take := false;
    if y + h <= c.height {
      if y <= bestY {
        if y < bestY || waste < bestWaste || (waste == bestWaste && xpos < bestX) {
          take := true;
        }
      }
    }
  }

  /** The two fingers: tail at node t, node and its link at node k, not to the right of tail - rw. */
  ghost predicate Fingers(ns: seq<Node>, rw: int, t: nat, tail: Node?, k: nat, node: Node, prev: Node?)
    reads ns
  {
    && t <= |ns| && tail == (if t < |ns| then ns[t] else null)
    && k < |ns| && node == ns[k] && prev == Link(ns, k)
    && (tail != null ==> rw <= tail.x && node.x <= tail.x - rw)
  }

  /** The attempts from node t on, weighed against the best one so far, give result. */
  ghost predicate Remains(c: Config, s: Sky, rw: int, h: int, t: nat, best: Best, result: Best) {
    && Shape(s, c.width, c.height) && 0 < rw && t <= |s|
    && ChooseRight(c, h, RightAttempts(c, s, rw, t), best) == result
  }

  /** One round of the two-finger loop: an attempt at tail, and the best so far. */
  method RightIteration(tail: Node, first: Node, before: Node?, c: Config, rw: int, h: int,
                        found0: bool, link0: Node?, x0: int, y0: int, waste0: int, ghost ns: seq<Node>,
                        ghost s: Sky, ghost t: nat, ghost j: nat, ghost best0: Best, ghost result: Best)
    returns (node: Node, prev: Node?, ghost k: nat,
             found: bool, link: Node?, bestX: int, bestY: int, bestWaste: int, ghost best: Best)
    requires c.heuristic.BestFit? && Linked(ns, 0) && Shows(ns, s)
    requires Fingers(ns, rw, t, tail, j, first, before)
    requires Holds(c, ns, best0, found0, link0, y0, waste0) && x0 == best0.at.x
    requires Remains(c, s, rw, h, t, best0, result)
    ensures Fingers(ns, rw, t + 1, tail.next, k, node, prev)
    ensures Holds(c, ns, best, found, link, bestY, bestWaste) && bestX == best.at.x
    ensures Remains(c, s, rw, h, t + 1, best, result)
  {
    var xpos, y, waste;
    ghost var e;
    node, prev, xpos, y, waste, e := TryRight(tail, first, before, c, rw, h, ns, s, t, j, best0);
    k := e.k;
    var take := CompareRight(c, h, xpos, y, waste, x0, y0, waste0, e, best0.at);
    best := Better(take, e, best0);
    if take {
      found, link, bestX, bestY, bestWaste := true, prev, xpos, y, waste;
    } else {
      found, link, bestX, bestY, bestWaste := found0, link0, x0, y0, waste0;
    }
  }

  /** The second, two-finger loop of stbrp__skyline_find_best_pos. */
  method SearchRight(activeHead: Node, c: Config, rw: int, h: int, ghost ns: seq<Node>, ghost s: Sky,
                     found0: bool, link0: Node?, x0: int, y0: int, waste0: int, ghost best0: Best)
    returns (found: bool, link: Node?, bestX: int, bestY: int, bestWaste: int, ghost best: Best)
    requires Shape(s, c.width, c.height) && 0 < rw <= c.width && c.heuristic.BestFit?
    requires Chain(activeHead, ns) && Shows(ns, s)
    requires Holds(c, ns, best0, found0, link0, y0, waste0) && x0 == best0.at.x
    ensures best == ChooseRight(c, h, RightAttempts(c, s, rw, 0), best0)
    ensures Holds(c, ns, best, found, link, bestY, bestWaste) && bestX == best.at.x
  {
    found, link, bestX, bestY, bestWaste, best := found0, link0, x0, y0, waste0, best0;
    var node, prev: Node? := activeHead, null;
    ghost var k: nat := 0;
    var first, t := FirstTail(activeHead, c, rw, ns, s);
    var tail: Node? := first;
    ghost var result := ChooseRight(c, h, RightAttempts(c, s, rw, 0), best0);
    while tail != null
      invariant 0 <= t && Fingers(ns, rw, t, tail, k, node, prev)
      invariant Holds(c, ns, best, found, link, bestY, bestWaste) && bestX == best.at.x
      invariant Remains(c, s, rw, h, t, best, result)
      decreases |ns| - t
    {
      node, prev, k, found, link, bestX, bestY, bestWaste, best :=
        RightIteration(tail, node, prev, c, rw, h, found, link, bestX, bestY, bestWaste, ns, s, t, k, best, result);
      tail := tail.next;
      t := t + 1;
    }
  }

  // ----- The splice ------------------------------------------------------------------------------

  /** The head of the free list becomes the new node. */
  method TakeFree(node: Node, x: int, top: int, ghost free: seq<Node>) returns (head: Node?)
    requires Chain(node, free) && Distinct(free)
    modifies node`x, node`y
    ensures node.x == x && node.y == top && Chain(head, free[1..])
  {
    node.x := x;
    node.y := top;
    head := node.next;
  }

  /** The first i nodes of ns are linked in order, and the last of them, or the head, leads to node. */
  ghost predicate Opened(head: Node?, ns: seq<Node>, i: nat, node: Node)
    reads ns
  {
    && i <= |ns|
    && head == (if i == 0 then node else ns[0])
    && (forall l :: 0 <= l < i - 1 ==> ns[l].next == ns[l + 1])
    && (i > 0 ==> ns[i - 1].next == node)
  }

  /** The new node is linked in; cur is the first node that may be covered. */
  method Insert(activeHead: Node?, link: Node?, node: Node, x: int,
                ghost ns: seq<Node>, ghost s: Sky, ghost k: nat, ghost front: set<Node>)
    returns (cur: Node, head: Node?)
    requires Chain(activeHead, ns) && Distinct(ns) && Shows(ns, s)
    requires k + 1 < |ns| && link == Link(ns, k)
    requires forall l :: 0 <= l < CutStart(s, k, x) ==> ns[l] in front
    modifies front`next
    ensures var i := CutStart(s, k, x); cur == ns[i] && Linked(ns, i) && Opened(head, ns, i, node)
  {
    head := activeHead;
    assert k > 0 ==> ns[k - 1].next == ns[k];
    assert ns[k].next == ns[k + 1];
    cur := if link == null then activeHead else link.next;
    if cur.x < x {
      var next := cur.next;
      cur.next := node;
      cur := next;
    } else if link == null {
      head := node;
    } else {
      link.next := node;
    }
  }

  /** The active nodes after the splice: the first i, the new one, those from m on. */
  ghost function Rejoined(ns: seq<Node>, i: nat, m: nat, node: Node): seq<Node>
    requires i <= m <= |ns|
  {
    ns[..i] + [node] + ns[m..]
  }

  lemma ShowsJoined(ns: seq<Node>, s: Sky, i: nat, m: nat, node: Node, r: Sky, e: int)
    requires i <= m < |ns| == |s|
    requires Joined(r, s, i, m, Pt(node.x, node.y), Max(s[m].x, e))
    requires forall l :: 0 <= l < |ns| ==> ns[l].y == s[l].y
    requires forall l :: 0 <= l < |ns| && l != m ==> ns[l].x == s[l].x
    requires ns[m].x == Max(s[m].x, e)
    ensures Shows(Rejoined(ns, i, m, node), r)
  {
  }

  lemma ChainRejoined(head: Node?, ns: seq<Node>, i: nat, m: nat, node: Node)
    requires i <= m < |ns| && Opened(head, ns, i, node) && Linked(ns, m) && node.next == ns[m]
    ensures Chain(head, Rejoined(ns, i, m, node))
  {
  }

  /** The list is closed behind the new node, and the node it goes on with is trimmed. */
  method Stitch(head: Node?, node: Node, cur: Node, e: int,
                ghost ns: seq<Node>, ghost s: Sky, ghost i: nat, ghost m: nat, ghost r: Sky,
                ghost rest: Node?, ghost frees: seq<Node>)
    requires Chain(rest, frees) && forall l :: 0 <= l < |frees| ==> frees[l] != node
    requires i <= m < |ns| == |s| && cur == ns[m] && Distinct(ns)
    requires Opened(head, ns, i, node) && Linked(ns, m) && Shows(ns, s)
    requires forall l :: 0 <= l < |ns| ==> ns[l] != node
    requires Joined(r, s, i, m, Pt(node.x, node.y), Max(s[m].x, e))
    modifies node`next, cur`x
    ensures Chain(head, Rejoined(ns, i, m, node)) && Chain(rest, frees)
    ensures Shows(Rejoined(ns, i, m, node), r)
  {
    node.next := cur;
    if cur.x < e {
      cur.x := e;
    }
    ChainRejoined(head, ns, i, m, node);
    ShowsJoined(ns, s, i, m, node, r, e);
  }

  lemma {:induction false} JoinedBySplice(s: Sky, k: nat, x: int, w: int, top: int)
    requires k + 1 < |s|
    ensures var i := CutStart(s, k, x);
            var m := CutEnd(s, i, x + w);
            Joined(Splice(s, k, x, w, top), s, i, m, Pt(x, top), Max(s[m].x, x + w))
  {
    SpliceIs(s, k, x, w, top);
    var i := CutStart(s, k, x);
    var m := CutEnd(s, i, x + w);
    JoinedBy(s, i, m, Pt(x, top), Max(s[m].x, x + w), Splice(s, k, x, w, top));
  }

  /** The nodes before position i, from i on, and the free ones behind the first, as disjoint sets. */
  ghost predicate Parts(ns: seq<Node>, i: nat, free: seq<Node>, front: set<Node>, back: set<Node>, pool: set<Node>) {
    && free != []
    && front !! back && front !! pool && back !! pool
    && free[0] !in front && free[0] !in back && free[0] !in pool
    && (forall l :: 0 <= l < i && l < |ns| ==> ns[l] in front)
    && (forall l :: i <= l < |ns| ==> ns[l] in back)
    && (forall l :: 1 <= l < |free| ==> free[l] in pool)
  }

  ghost predicate Within(ns: seq<Node>, nodes: set<Node>) {
    forall i :: 0 <= i < |ns| ==> ns[i] in nodes
  }

  lemma Partition(ns: seq<Node>, i: nat, free: seq<Node>, nodes: set<Node>)
    returns (front: set<Node>, back: set<Node>, pool: set<Node>)
    requires Clear(ns, 0, free) && free != [] && Within(ns, nodes) && Within(free, nodes)
    ensures Parts(ns, i, free, front, back, pool)
    ensures front <= nodes && back <= nodes && pool <= nodes
  {
    front := set l | 0 <= l < i && l < |ns| :: ns[l];
    back := set l | i <= l < |ns| :: ns[l];
    pool := set l | 1 <= l < |free| :: free[l];
  }

  /** The first half of the splice: the new node is linked in, and the covered nodes are freed. */
  method CutOpen(activeHead: Node, freeHead: Node, link: Node?, x: int, top: int, e: int,
                 ghost ns: seq<Node>, ghost s: Sky, ghost k: nat, ghost free: seq<Node>,
                 ghost front: set<Node>, ghost back: set<Node>, ghost pool: set<Node>)
    returns (cur: Node, head: Node?, rest: Node?)
    requires Chain(activeHead, ns) && Chain(freeHead, free) && Clear(ns, 0, free) && Shows(ns, s)
    requires k + 1 < |ns| && link == Link(ns, k)
    requires Parts(ns, CutStart(s, k, x), free, front, back, pool)
    modifies front`next, back`next, freeHead`x, freeHead`y
    ensures var i := CutStart(s, k, x);
            var m := CutEnd(s, i, e);
            && cur == ns[m]
            && Opened(head, ns, i, freeHead) && Linked(ns, m)
            && Chain(rest, Stacked(ns, i, m, free[1..]))
    ensures freeHead.x == x && freeHead.y == top
  {
    ghost var i, m := CutStart(s, k, x), 0;
    rest := TakeFree(freeHead, x, top, free);
    cur, head := Insert(activeHead, link, freeHead, x, ns, s, k, front);
    cur, rest, m := FreeCovered(cur, rest, e, ns, s, i, free[1..], back);
  }

  /** The free list never holds the new node or a node that stays active. */
  lemma {:induction false} StackedApart(ns: seq<Node>, i: nat, m: nat, free: seq<Node>,
                                        front: set<Node>, back: set<Node>, pool: set<Node>)
    requires i <= m <= |ns| && Clear(ns, 0, free) && Parts(ns, i, free, front, back, pool)
    ensures var r := Stacked(ns, i, m, free[1..]);
            && Distinct(r)
            && (forall l :: 0 <= l < |r| ==> r[l] in back || r[l] in pool)
            && (forall l, j :: 0 <= l < |r| && m <= j < |ns| ==> r[l] != ns[j])
    decreases m
  {
    if i < m {
      var r := Stacked(ns, i, m - 1, free[1..]);
      StackedApart(ns, i, m - 1, free, front, back, pool);
      assert Stacked(ns, i, m, free[1..]) == [ns[m - 1]] + r;
    }
  }

  /** The two lists after the splice, which share no node. */
  lemma Regrouped(ns: seq<Node>, i: nat, m: nat, free: seq<Node>, nodes: set<Node>)
    returns (front: set<Node>, back: set<Node>, pool: set<Node>, actives: seq<Node>, frees: seq<Node>)
    requires i <= m <= |ns| && Clear(ns, 0, free) && free != [] && Within(ns, nodes) && Within(free, nodes)
    ensures Parts(ns, i, free, front, back, pool) && front <= nodes && back <= nodes
    ensures actives == Rejoined(ns, i, m, free[0]) && frees == Stacked(ns, i, m, free[1..])
    ensures Clear(actives, 0, frees) && Within(actives, nodes) && Within(frees, nodes)
    ensures forall l :: 0 <= l < |frees| ==> frees[l] in back || frees[l] in pool
    ensures forall l :: 0 <= l < |frees| && m < |ns| ==> frees[l] != ns[m]
    ensures forall l :: 0 <= l < |frees| ==> frees[l] != free[0]
  {
    front, back, pool := Partition(ns, i, free, nodes);
    StackedApart(ns, i, m, free, front, back, pool);
    actives, frees := Rejoined(ns, i, m, free[0]), Stacked(ns, i, m, free[1..]);
    assert forall l :: 0 <= l < i ==> actives[l] == ns[l];
    assert forall l :: i < l < |actives| ==> actives[l] == ns[l - (i + 1) + m];
  }

  /** The splice of stbrp__skyline_pack_rectangle on the two lists; r is the skyline it leaves. */
  method SpliceLists(activeHead: Node, freeHead: Node, link: Node?, x: int, top: int, w: int,
                     ghost ns: seq<Node>, ghost s: Sky, ghost k: nat, ghost free: seq<Node>,
                     ghost r: Sky, ghost nodes: set<Node>)
    returns (head: Node?, rest: Node?, ghost actives: seq<Node>, ghost frees: seq<Node>)
    requires Chain(activeHead, ns) && Chain(freeHead, free) && Clear(ns, 0, free) && Shows(ns, s)
    requires k + 1 < |ns| && link == Link(ns, k) && free != []
    requires var i := CutStart(s, k, x);
             var m := CutEnd(s, i, x + w);
             Joined(r, s, i, m, Pt(x, top), Max(s[m].x, x + w))
    requires Within(ns, nodes) && Within(free, nodes)
    modifies nodes
    ensures Chain(head, actives) && Shows(actives, r) && Chain(rest, frees)
    ensures Clear(actives, 0, frees) && Within(actives, nodes) && Within(frees, nodes)
    ensures |frees| == |free| - 1 + Freed(s, k, x, w)
  {
    var cur;
    ghost var i := CutStart(s, k, x);
    ghost var m := CutEnd(s, i, x + w);
    ghost var front, back, pool;
    front, back, pool, actives, frees := Regrouped(ns, i, m, free, nodes);
    cur, head, rest := CutOpen(activeHead, freeHead, link, x, top, x + w, ns, s, k, free, front, back, pool);
    Stitch(head, freeHead, cur, x + w, ns, s, i, m, r, rest, frees);
  }

  /** r is what the splice of a node (x, top) of width w at node k leaves of s. */
  ghost predicate LeftBy(r: Sky, s: Sky, k: nat, x: int, top: int, w: int) {
    && k + 1 < |s|
    && var i := CutStart(s, k, x);
       var m := CutEnd(s, i, x + w);
       Joined(r, s, i, m, Pt(x, top), Max(s[m].x, x + w))
  }

  /** What a successful step asks of the lists, and what it leaves. */
  lemma PackJoins(p: Packer, w: nat, h: int, x: int, y: int) returns (k: nat, q: Packer)
    requires PackerOk(p) && 0 < w && 0 < h && 0 < p.free && y + h <= p.c.height
    requires var b := FindBest(p.c, p.sky, w, h); b.found && b.at.x == x && b.at.y == y
    ensures k == FindBest(p.c, p.sky, w, h).at.k
    ensures Pack(p, w, h) == (q, PlacedAt(x, y)) && PackerOk(q) && q.c == p.c
    ensures LeftBy(q.sky, p.sky, k, x, y + h, w)
    ensures q.free == p.free - 1 + Freed(p.sky, k, x, w)
  {
    var e := PackLandsAt(p, w, h, x, y);
    k := e.k;
    q := PlaceJoins(p, e, w, h);
  }

  lemma PackLandsAt(p: Packer, w: nat, h: int, x: int, y: int) returns (e: Attempt)
    requires PackerOk(p) && 0 < w && 0 < h && 0 < p.free && y + h <= p.c.height
    requires var b := FindBest(p.c, p.sky, w, h); b.found && b.at.x == x && b.at.y == y
    ensures e.k == FindBest(p.c, p.sky, w, h).at.k && e.x == x && e.y == y
    ensures Lands(p, e, w, h) && Pack(p, w, h) == (Place(p, e, w, h), PlacedAt(x, y))
  {
    e := PackLands(p, w, h);
  }

  lemma PlaceJoins(p: Packer, e: Attempt, w: nat, h: int) returns (q: Packer)
    requires PackerOk(p) && Lands(p, e, w, h)
    ensures q == Place(p, e, w, h) && PackerOk(q) && q.c == p.c
    ensures LeftBy(q.sky, p.sky, e.k, e.x, e.y + h, w)
    ensures q.free == p.free - 1 + Freed(p.sky, e.k, e.x, w)
  {
    PlaceOk(p, e, w, h);
    PlaceLeaves(p, e, w, h);
    q := Place(p, e, w, h);
  }

  lemma PlaceLeaves(p: Packer, e: Attempt, w: nat, h: int)
    requires e.k + 1 < |p.sky| && 0 < p.free
    ensures var q := Place(p, e, w, h);
            && LeftBy(q.sky, p.sky, e.k, e.x, e.y + h, w)
            && q.c == p.c && q.free == p.free - 1 + Freed(p.sky, e.k, e.x, w)
  {
    JoinedBySplice(p.sky, e.k, e.x, w, e.y + h);
  }

  lemma InitClear(extra0: Node, extra1: Node, pool: seq<Node>, nodes: set<Node>)
    requires Distinct(pool) && extra0 != extra1 && extra0 !in pool && extra1 !in pool
    requires Within(pool, nodes) && extra0 in nodes && extra1 in nodes
    ensures Clear([extra0, extra1], 0, pool) && Within([extra0, extra1], nodes)
  {
  }

  /** The nodes as stbrp_init_target leaves them. */
  method InitNodes(extra0: Node, extra1: Node, pool: seq<Node>, ghost members: set<Node>, w: int)
    requires Within(pool, members)
    requires pool != [] && Distinct(pool) && extra0 != extra1 && extra0 !in pool && extra1 !in pool
    modifies members`next, extra0, extra1
    ensures Chain(pool[0], pool) && Chain(extra0, [extra0, extra1])
    ensures Shows([extra0, extra1], [Pt(0, 0), Pt(w, BIG)])
  {
    for i := 0 to |pool| - 1
      invariant forall j :: 0 <= j < i ==> pool[j].next == pool[j + 1]
    {
      pool[i].next := pool[i + 1];
    }
    pool[|pool| - 1].next := null;
    extra0.x := 0;
    extra0.y := 0;
    extra0.next := extra1;
    extra1.x := w;
    extra1.y := BIG;
    extra1.next := null;
  }

  // ----- The context -----------------------------------------------------------------------------

  class Context {
    const extra0: Node
    const extra1: Node
    var width: int
    var height: int
    var align: int
    var heuristic: Heuristic
    var numNodes: int
    var activeHead: Node?
    var freeHead: Node?

    ghost var active: seq<Node>
    ghost var free: seq<Node>
    ghost var packer: Packer
    ghost var nodes: set<Node>

    /** The lists are well formed and apart, and every node belongs to the context. */
    ghost predicate ListsOk()
      reads this, active, free
    {
      && Chain(activeHead, active) && Chain(freeHead, free)
      && Clear(active, 0, free)
      && Within(active, nodes) && Within(free, nodes)
    }

    /** The context stands for its packer. */
    ghost predicate Represents()
      reads this, active, free
    {
      && ListsOk()
      && Shows(active, packer.sky) && |free| == packer.free
      && packer.c == Config(width, height, numNodes, align, heuristic)
    }

    ghost predicate Valid()
      reads this, active, free
    {
      Represents() && PackerOk(packer) && Grounded(packer.sky)
    }

    /** stbrp_init_target: node i of the pool leads to node i + 1, and all of them are free. */
    constructor InitTarget(w: int, h: int, pool: seq<Node>)
      requires 1 <= w && 0 <= h <= BIG && pool != [] && Distinct(pool)
      modifies (set n | n in pool)`next
      ensures Valid()
      ensures packer == Fresh(Config(w, h, |pool|, DefaultAlign(w, |pool|), BottomLeft))
      ensures nodes == {extra0, extra1} + (set n | n in pool) && fresh(extra0) && fresh(extra1)
    {
      extra0 := new Node();
      extra1 := new Node();
      heuristic := BottomLeft;
      width := w;
      height := h;
      numNodes := |pool|;
      align := (w + |pool| - 1) / |pool|;
      ghost var members := set n | n in pool;
      nodes := {extra0, extra1} + members;
      new;
      InitLists(pool, members);
    }

    /** The part of stbrp_init_target that links the nodes. */
    method InitLists(pool: seq<Node>, ghost members: set<Node>)
      requires pool != [] && Distinct(pool) && extra0 != extra1 && extra0 !in pool && extra1 !in pool
      requires Within(pool, members) && nodes == {extra0, extra1} + members
      requires 1 <= width && 0 <= height <= BIG && numNodes == |pool| && heuristic == BottomLeft
      requires align == DefaultAlign(width, numNodes)
      modifies this`activeHead, this`freeHead, this`active, this`free, this`packer, members`next, extra0, extra1
      ensures Valid() && packer == Fresh(Config(width, height, numNodes, align, BottomLeft))
    {
      InitNodes(extra0, extra1, pool, members, width);
      ghost var c := Config(width, height, numNodes, align, BottomLeft);
      DefaultAlignPositive(width, numNodes);
      FreshOk(c);
      InitClear(extra0, extra1, pool, nodes);
      Install(extra0, pool[0], [extra0, extra1], pool, Fresh(c));
    }

    /** stbrp_setup_heuristic */
    method SetupHeuristic(to: Heuristic)
      requires Valid()
      modifies this`heuristic, this`packer
      ensures Valid() && packer == old(packer).(c := old(packer).c.(heuristic := to))
      ensures packer == After(old(packer), UseHeuristic(to))
    {
      ghost var c := packer.c.(heuristic := to);
      ReconfigureOk(packer, c);
      heuristic := to;
      packer := packer.(c := c);
    }

    /** stbrp_setup_allow_out_of_mem */
    method SetupAllowOutOfMem(allow: bool)
      requires Valid()
      modifies this`align, this`packer
      ensures Valid()
      ensures packer == old(packer).(c := old(packer).c.(
                align := if allow then 1 else DefaultAlign(width, numNodes)))
      ensures packer == After(old(packer), AllowOutOfMem(allow))
    {
      DefaultAlignPositive(width, numNodes);
      SetAlign(if allow then 1 else (width + numNodes - 1) / numNodes);
    }

    method SetAlign(to: int)
      requires Valid() && 1 <= to
      modifies this`align, this`packer
      ensures Valid() && packer == old(packer).(c := old(packer).c.(align := to))
    {
      ghost var c := packer.c.(align := to);
      ReconfigureOk(packer, c);
      align := to;
      packer := packer.(c := c);
    }

    /** stbrp__skyline_find_best_pos; found is false where the source returns a null prev_link. */
    method FindBestPos(w: nat, h: int) returns (found: bool, link: Node?, x: int, y: int)
      requires Represents() && 0 < w
      requires ConfigOk(packer.c) && Shape(packer.sky, packer.c.width, packer.c.height)
      ensures var b := FindBest(packer.c, packer.sky, w, h);
              && found == b.found
              && (found ==> b.at.x == x && b.at.y == y && b.at.k < |active| && link == Link(active, b.at.k))
      ensures 0 < h ==>
                if found && y + h <= height then
                  Grounded(packer.sky) ==> WellChosen(packer.c, packer.sky, Rounded(w, align), h, x)
                else
                  !FitsSomewhere(packer.c, packer.sky, Rounded(w, align), h)
    {
      BestChooses(packer.c, packer.sky, w, h);
      var rw := w + align - 1;
      rw := rw - rw % align;
      RoundedIs(w, align);
      ghost var best;
      found, link, x, y, best := FindAligned(rw, h);
    }

    /** The same, with the width aligned; the best attempt is passed on. */
    method FindAligned(rw: int, h: int) returns (found: bool, link: Node?, x: int, y: int, ghost best: Best)
      requires Represents() && 0 < rw
      requires ConfigOk(packer.c) && Shape(packer.sky, packer.c.width, packer.c.height)
      ensures best == Search(packer.c, packer.sky, rw, h) && found == best.found
      ensures found ==> best.at.x == x && best.at.y == y && best.at.k < |active| && link == Link(active, best.at.k)
    {
      var c := Config(width, height, numNodes, align, heuristic);
      if rw > width || h > height {
        return false, null, 0, 0, NoBest;
      }
      var bestY, bestWaste;
      found, link, bestY, bestWaste, best := SearchLeft(activeHead, c, rw, h, active, packer.sky);
      x := if !found then 0 else if link == null then activeHead.x else link.next.x;
      if heuristic.BestFit? {
        found, link, x, bestY, bestWaste, best :=
          SearchRight(activeHead, c, rw, h, active, packer.sky, found, link, x, bestY, bestWaste, best);
      }
      y := bestY;
    }

    /** The two lists and the packer they show become those of the context. */
    method Install(head: Node?, rest: Node?, ghost actives: seq<Node>, ghost frees: seq<Node>, ghost q: Packer)
      requires Chain(head, actives) && Chain(rest, frees) && Clear(actives, 0, frees)
      requires Within(actives, nodes) && Within(frees, nodes)
      requires Shows(actives, q.sky) && |frees| == q.free
      requires q.c == Config(width, height, numNodes, align, heuristic)
      modifies this`activeHead, this`freeHead, this`active, this`free, this`packer
      ensures Represents() && packer == q
    {
      activeHead, freeHead, active, free, packer := head, rest, actives, frees, q;
    }

    /** The splice: a new node at (x, top) over w columns, behind the link to node k; it leaves q. */
    method SpliceIn(link: Node?, x: int, top: int, w: int, ghost k: nat, ghost q: Packer)
      requires Represents() && freeHead != null
      requires k < |active| && link == Link(active, k)
      requires LeftBy(q.sky, packer.sky, k, x, top, w)
      requires q.c == packer.c && q.free == packer.free - 1 + Freed(packer.sky, k, x, w)
      modifies this`activeHead, this`freeHead, this`active, this`free, this`packer, nodes
      ensures Represents() && packer == q
    {
      var head, rest;
      ghost var actives, frees;
      head, rest, actives, frees :=
        SpliceLists(activeHead, freeHead, link, x, top, w, active, packer.sky, k, free, q.sky, nodes);
      Install(head, rest, actives, frees, q);
    }

    /** The part of stbrp__skyline_pack_rectangle that has found room at (x, y) behind link. */
    method PackBehind(link: Node?, w: nat, h: nat, x: int, y: int)
      requires Valid() && 0 < w && 0 < h && freeHead != null && y + h <= height
      requires var b := FindBest(packer.c, packer.sky, w, h);
               b.found && b.at.x == x && b.at.y == y && b.at.k < |active| && link == Link(active, b.at.k)
      modifies this`activeHead, this`freeHead, this`active, this`free, this`packer, nodes
      ensures Valid()
      ensures Pack(old(packer), w, h) == (packer, PlacedAt(x, y))
    {
      assert freeHead == free[0];
      ghost var k, q := PackJoins(packer, w, h, x, y);
      ServeGrounded(packer, Request(w, h));
      SpliceIn(link, x, y + h, w, k, q);
    }

    /** stbrp__skyline_pack_rectangle, as the step on values */
    method PackStep(w: nat, h: nat) returns (ok: bool, x: int, y: int)
      requires Valid() && 0 < w && 0 < h
      modifies this`activeHead, this`freeHead, this`active, this`free, this`packer, nodes
      ensures Valid()
      ensures Pack(old(packer), w, h) == (packer, if ok then PlacedAt(x, y) else NoRoom)
    {
      var link;
      ok, link, x, y := FindBestPos(w, h);
      if !ok || y + h > height || freeHead == null {
        ok := false;
        return;
      }
      PackBehind(link, w, h, x, y);
    }

    /** stbrp__skyline_pack_rectangle, and what its answer means */
    method PackRectangle(w: nat, h: nat) returns (ok: bool, x: int, y: int)
      requires Valid() && 0 < w && 0 < h
      modifies this`activeHead, this`freeHead, this`active, this`free, this`packer, nodes
      ensures Valid() && packer == After(old(packer), Rectangle(Request(w, h)))
      ensures Serve(old(packer), Request(w, h)) == (packer, if ok then PlacedAt(x, y) else NoRoom)
      ensures Outcome(old(packer), packer, w, h, Rounded(w, old(align)), if ok then PlacedAt(x, y) else NoRoom)
    {
      PackOutcome(packer, w, h);
      ok, x, y := PackStep(w, h);
    }
  }
}
