/** When the node pool is large enough. */
module Nodes {
  import opened Skyline
  import opened Packing
  import opened Splicing
  import opened Choosing
  import opened Runs
  import opened Grounds

  lemma {:induction false} ColumnsApart(s: Sky, width: int, height: int, i: nat)
    requires Shape(s, width, height) && i < |s|
    ensures i <= s[i].x
  {
    if i > 0 {
      ColumnsApart(s, width, height, i - 1);
      assert s[i - 1].x < s[i].x;
    }
  }

  /** With at least as many nodes as columns, a free node is left in every state of every run. */
  lemma NodesSuffice(p: Packer)
    requires PackerOk(p) && p.c.numNodes >= p.c.width
    ensures p.free > 0
  {
    ColumnsApart(p.sky, p.c.width, p.c.height, |p.sky| - 1);
  }

  lemma AlignOne(width: int, n: int)
    requires 1 <= width <= n
    ensures DefaultAlign(width, n) == 1
  {
    Quotient(width + n - 1, n);
    var a := (width + n - 1) / n;
    if a >= 2 {
      ScaleBy(n, 2, a);
    } else if a <= 0 {
      ScaleBy(n, a, 0);
    }
  }

  lemma ScaleBy(n: int, a: int, b: int)
    requires 0 < n && a <= b
    ensures n * a <= n * b
  {
  }

  /** Then packing fails only when the rectangle fits nowhere, at its own width. */
  lemma RoomyFailsIff(p: Packer, w: nat, h: int)
    requires PackerOk(p) && 0 < w && 0 < h
    requires p.c.numNodes >= p.c.width && p.c.align == DefaultAlign(p.c.width, p.c.numNodes)
    ensures Pack(p, w, h).1.NoRoom? <==> !FitsSomewhere(p.c, p.sky, w, h)
  {
    AlignOne(p.c.width, p.c.numNodes);
    assert Rounded(w, p.c.align) == w;
    NodesSuffice(p);
    PackFailsIff(p, w, h);
  }

  // ----- With fewer nodes than columns, unit squares use them up ----------------------------------

  /** After j unit squares in a row: j columns of height 1, and the rest of the target empty. */
  ghost predicate Stair(p: Packer, j: nat) {
    && ConfigOk(p.c) && 1 <= p.c.height
    && p.c.numNodes - 1 + p.c.align <= p.c.width
    && j <= p.c.numNodes < p.c.width
    && p.free == p.c.numNodes - j
    && |p.sky| == j + 2
    && (forall i :: 0 <= i < j ==> p.sky[i] == Pt(i, 1))
    && p.sky[j] == Pt(j, 0) && p.sky[j + 1] == Pt(p.c.width, BIG)
  }

  lemma CeilingRoom(width: int, n: int, a: int, rem: int)
    requires 1 <= n < width && 0 <= rem < n && width + n - 1 == n * a + rem
    ensures 1 <= a && n - 1 + a <= width
  {
    if a <= 0 {
      ScaleBy(n, a, 0);
    } else if a >= width + 2 - n {
      assert n * (width + 2 - n) == (width - n) * (n - 1) + width + n;
      ScaleBy(width - n, 0, n - 1);
      ScaleBy(n, width + 2 - n, a);
    }
  }

  lemma AlignRoom(width: int, n: int)
    requires 1 <= n < width
    ensures 1 <= DefaultAlign(width, n) && n - 1 + DefaultAlign(width, n) <= width
  {
    Quotient(width + n - 1, n);
    CeilingRoom(width, n, DefaultAlign(width, n), (width + n - 1) % n);
  }

  lemma StairHeights(p: Packer, j: nat, c: int)
    requires Stair(p, j) && 0 <= c < p.c.width
    ensures Shape(p.sky, p.c.width, p.c.height)
    ensures HeightAt(p.sky, c) == if c < j then 1 else 0
  {
    HeightIs(p.sky, p.c.width, p.c.height, if c < j then c else j, c);
  }

  lemma StairFoot(p: Packer, j: nat, rw: int)
    requires Stair(p, j) && 0 < rw && j + rw <= p.c.width
    ensures Shape(p.sky, p.c.width, p.c.height) && Grounded(p.sky)
    ensures Top(p.sky, j, j + rw) == 0 && ColumnSum(p.sky, j, j + rw) == 0
  {
    StairHeights(p, j, 0);
    forall x | j <= x < j + rw ensures HeightAt(p.sky, x) == 0 {
      StairHeights(p, j, x);
    }
    SumFlat(p.sky, j, j, j + rw, 0);
  }

  /** A window at height 0 lies at the foot of the stair or further right. */
  lemma StairAtFoot(p: Packer, j: nat, rw: int, x: int)
    requires Stair(p, j) && 0 < rw && 0 <= x && x + rw <= p.c.width
    ensures Shape(p.sky, p.c.width, p.c.height)
    ensures 0 <= Top(p.sky, x, x + rw) && (Top(p.sky, x, x + rw) == 0 ==> j <= x)
  {
    StairHeights(p, j, x);
    TopBounds(p.sky, p.c.width, p.c.height, x, rw);
    assert HeightAt(p.sky, x) <= Top(p.sky, x, x + rw);
  }

  lemma StairBottomLeft(p: Packer, j: nat, rw: int)
    requires Stair(p, j) && 0 < rw && j + rw <= p.c.width && p.c.heuristic.BottomLeft?
    ensures Shape(p.sky, p.c.width, p.c.height)
    ensures var b := Search(p.c, p.sky, rw, 1); b.found && b.at.y <= 0 && b.at.x <= j
  {
    StairFoot(p, j, rw);
    BottomLeftLeast(p.c, p.sky, rw, 1, j);
    SearchTried(p.c, p.sky, rw, 1);
    var e := Search(p.c, p.sky, rw, 1).at;
    if Search(p.c, p.sky, rw, 1).found {
      TriedTop(p.c, p.sky, rw, e);
      StairAtFoot(p, j, rw, e.x);
    }
  }

  lemma StairBestFit(p: Packer, j: nat, rw: int)
    requires Stair(p, j) && 0 < rw && j + rw <= p.c.width && p.c.heuristic.BestFit?
    ensures Shape(p.sky, p.c.width, p.c.height)
    ensures var b := Search(p.c, p.sky, rw, 1); b.found && b.at.y <= 0 && b.at.x <= j
  {
    StairFoot(p, j, rw);
    LeastAreaWasted(p.c, p.sky, rw, 1, j);
    var e := Search(p.c, p.sky, rw, 1).at;
    TriedTop(p.c, p.sky, rw, e);
    StairAtFoot(p, j, rw, e.x);
    NoWorseThanFoot(p.sky, p.c.width, p.c.height, rw, e.x, j);
  }

  lemma NoWorseThanFoot(s: Sky, width: int, height: int, rw: int, a: int, j: int)
    requires Shape(s, width, height) && 0 < rw && 0 <= a && a + rw <= width && 0 <= j && j + rw <= width
    requires NoWorse(s, rw, a, j) && Top(s, j, j + rw) == 0 && ColumnSum(s, j, j + rw) == 0
    ensures Top(s, a, a + rw) == 0 && a <= j
  {
    GapPositive(s, width, height, rw, a);
    GapOf(s, rw, j, 0);
  }

  /** Either heuristic puts the next unit square at the foot of the stair. */
  lemma StairSearch(p: Packer, j: nat, rw: int) returns (e: Attempt)
    requires Stair(p, j) && 0 < rw && j + rw <= p.c.width
    ensures Shape(p.sky, p.c.width, p.c.height)
    ensures Search(p.c, p.sky, rw, 1) == Best(true, e) && e.k == e.x == j && e.y == 0
  {
    StairHeights(p, j, 0);
    e := Search(p.c, p.sky, rw, 1).at;
    if p.c.heuristic.BottomLeft? {
      StairBottomLeft(p, j, rw);
    } else {
      StairBestFit(p, j, rw);
    }
    SearchTried(p.c, p.sky, rw, 1);
    TriedTop(p.c, p.sky, rw, e);
    StairAtFoot(p, j, rw, e.x);
    StairNode(p, j, e.k);
  }

  lemma StairNode(p: Packer, j: nat, k: nat)
    requires Stair(p, j) && k + 1 < |p.sky| && p.sky[k].x <= j < p.sky[k + 1].x
    ensures k == j
  {
  }

  lemma StairSplice(s: Sky, j: nat, width: int)
    requires |s| == j + 2 && s[j] == Pt(j, 0) && s[j + 1] == Pt(width, BIG) && j + 1 < width
    ensures Splice(s, j, j, 1, 1) == s[..j] + ([Pt(j, 1)] + [Pt(j + 1, 0)]) + s[j + 1..]
    ensures Freed(s, j, j, 1) == 0
  {
    SpliceIs(s, j, j, 1, 1);
  }

  lemma StairStep(p: Packer, j: nat)
    requires PackerOk(p) && Stair(p, j) && j < p.c.numNodes
    ensures Stair(Serve(p, Request(1, 1)).0, j + 1)
    ensures Serve(p, Request(1, 1)).1 == PlacedAt(j, 0)
  {
    var e := StairSearch(p, j, p.c.align);
    StairSplice(p.sky, j, p.c.width);
    assert Pack(p, 1, 1) == (Place(p, e, 1, 1), PlacedAt(j, 0));
    var q := Place(p, e, 1, 1);
    assert forall i :: 0 <= i < j ==> q.sky[i] == p.sky[i];
    assert q.sky[j] == Pt(j, 1) && q.sky[j + 1] == Pt(j + 1, 0) && q.sky[j + 2] == p.sky[j + 1];
  }

  function Units(m: nat): seq<Request> {
    if m == 0 then [] else Units(m - 1) + [Request(1, 1)]
  }

  /** A run builds the stair, one unit square after the other, until the nodes run out. */
  lemma {:induction false} RunStair(c: Config, j: nat)
    requires ConfigOk(c) && 1 <= c.height
    requires j <= c.numNodes < c.width && c.numNodes - 1 + c.align <= c.width
    ensures PackerOk(Fresh(c)) && Stair(Run(Fresh(c), Units(j)), j)
  {
    FreshOk(c);
    if j > 0 {
      RunStair(c, j - 1);
      var p := Run(Fresh(c), Units(j - 1));
      StairStep(p, j - 1);
      var q := Serve(p, Request(1, 1)).0;
      assert Run(Fresh(c), Units(j)) == q by {
        RunSnoc(Fresh(c), Units(j - 1), Request(1, 1));
      }
    }
  }

  /**
    Quantising widths does not keep nodes from running out: with the default alignment, a run of
    either heuristic can use up the free list exactly when there are fewer nodes than columns.
   */
  lemma NodesRunOutIff(c: Config)
    requires ConfigOk(c) && 1 <= c.height
    requires c.align == DefaultAlign(c.width, c.numNodes)
    ensures PackerOk(Fresh(c))
    ensures (exists rs :: Run(Fresh(c), rs).free == 0) <==> c.numNodes < c.width
  {
    FreshOk(c);
    if c.numNodes < c.width {
      AlignRoom(c.width, c.numNodes);
      RunStair(c, c.numNodes);
      assert Run(Fresh(c), Units(c.numNodes)).free == 0;
    } else {
      forall rs ensures Run(Fresh(c), rs).free != 0 {
        NodesSuffice(Run(Fresh(c), rs));
      }
    }
  }

  lemma StairLeavesRoom(p: Packer, rw: int)
    requires 0 <= p.c.numNodes && Stair(p, p.c.numNodes) && 2 <= p.c.height && 0 < rw <= p.c.width
    ensures Shape(p.sky, p.c.width, p.c.height) && Fits(p.c, p.sky, rw, 1, 0)
  {
    StairHeights(p, p.c.numNodes, 0);
    var x :| 0 <= x < rw && HeightAt(p.sky, x) == Top(p.sky, 0, rw);
    StairHeights(p, p.c.numNodes, x);
  }

  lemma FullStairRefuses(p: Packer)
    requires 0 <= p.c.numNodes && Stair(p, p.c.numNodes) && 2 <= p.c.height
    ensures Shape(p.sky, p.c.width, p.c.height)
    ensures Pack(p, 1, 1).1.NoRoom? && Fits(p.c, p.sky, Rounded(1, p.c.align), 1, 0)
  {
    StairLeavesRoom(p, p.c.align);
  }

  /** A unit square is then refused although there is room for it. */
  lemma RefusedWithRoom(c: Config, p: Packer)
    requires ConfigOk(c) && 2 <= c.height && c.numNodes < c.width
    requires c.align == DefaultAlign(c.width, c.numNodes)
    requires PackerOk(Fresh(c)) && p == Run(Fresh(c), Units(c.numNodes))
    ensures Pack(p, 1, 1).1.NoRoom? && Fits(c, p.sky, Rounded(1, c.align), 1, 0)
  {
    AlignRoom(c.width, c.numNodes);
    RunStair(c, c.numNodes);
    FullStairRefuses(p);
  }
}
