/** What the search for a position promises, over every position and not only those it tries. */
module Choosing {
  import opened Skyline
  import opened Packing

  /** What is reported at position x. */
  function Report(c: Config, s: Sky, rw: int, x: int): Attempt
    requires Shape(s, c.width, c.height) && 0 <= x && x + rw <= c.width
  {
    AttemptAt(s, Find(s, x, |s|), x, rw)
  }

  lemma {:induction false} TriedTop(c: Config, s: Sky, rw: int, e: Attempt)
    requires Shape(s, c.width, c.height) && 0 < rw && Tried(c, s, rw, e)
    ensures e.y == Top(s, e.x, e.x + rw) && e == Report(c, s, rw, e.x)
  {
    ProbeIsTop(s, c.width, c.height, e.k, e.x, rw);
    HeightIs(s, c.width, c.height, e.k, e.x);
  }

  lemma {:induction false} ReportTop(c: Config, s: Sky, rw: int, x: int)
    requires Shape(s, c.width, c.height) && 0 < rw && 0 <= x && x + rw <= c.width
    ensures Report(c, s, rw, x).y == Top(s, x, x + rw)
  {
    HeightBounds(s, c.width, c.height, x);
    ProbeIsTop(s, c.width, c.height, Find(s, x, |s|), x, rw);
  }

  /** Every node that leaves room to its right is tried with its left edge there. */
  lemma {:induction false} LeftTried(c: Config, s: Sky, rw: int, k: nat, j: nat)
    requires Shape(s, c.width, c.height) && 0 < rw
    requires k <= j < |s| && s[j].x + rw <= c.width
    ensures 0 <= s[j].x && Report(c, s, rw, s[j].x) in LeftAttempts(c, s, rw, k)
    decreases j - k
  {
    if k < j {
      assert s[k].x < s[j].x;
      LeftTried(c, s, rw, k + 1, j);
    } else {
      HeightIs(s, c.width, c.height, j, s[j].x);
    }
  }

  /** Every node that leaves room to its left is tried with its right edge there. */
  lemma {:induction false} RightTried(c: Config, s: Sky, rw: int, t: nat, j: nat)
    requires Shape(s, c.width, c.height) && 0 < rw
    requires t <= j < |s| && rw <= s[j].x
    ensures s[j].x <= c.width && Report(c, s, rw, s[j].x - rw) in RightAttempts(c, s, rw, t)
    decreases j - t
  {
    if t < j {
      RightTried(c, s, rw, t + 1, j);
    }
  }

  /** The height of what is found is the greatest column height of its window. */
  lemma {:induction false} SearchTop(c: Config, s: Sky, rw: int, h: int)
    requires Shape(s, c.width, c.height) && 0 < rw
    requires Search(c, s, rw, h).found
    ensures var e := Search(c, s, rw, h).at;
            0 <= e.x && e.x + rw <= c.width && e.y == Top(s, e.x, e.x + rw)
  {
    SearchTried(c, s, rw, h);
    TriedTop(c, s, rw, Search(c, s, rw, h).at);
  }

  /** Sliding a window left to the node under its left edge does not raise its lowest height. */
  lemma SlideLeft(s: Sky, width: int, height: int, rw: int, x: int)
    requires Shape(s, width, height) && 0 < rw && 0 <= x && x + rw <= width
    ensures var k := Find(s, x, |s|);
            && 0 <= s[k].x <= x
            && Top(s, s[k].x, s[k].x + rw) <= Top(s, x, x + rw)
  {
    var k := Find(s, x, |s|);
    assert k > 0 ==> s[0].x < s[k].x;
    HeightBounds(s, width, height, x);
    var a := s[k].x;
    SegmentFlat(s, width, height, k, a, s[k + 1].x);
    assert HeightAt(s, x) == s[k].y;
    forall c | a <= c < a + rw ensures HeightAt(s, c) <= Top(s, x, x + rw) {
      if c <= x {
        assert HeightAt(s, c) == s[k].y;
      }
    }
  }

  // ----- Sliding a window to a node ------------------------------------------------------------------

  /** x is a position that best-fit tries: one of the window's two edges is at a node. */
  ghost predicate EdgeAtNode(s: Sky, rw: int, x: int) {
    exists j :: 0 <= j < |s| && (s[j].x == x || s[j].x == x + rw)
  }

  /** The window at a is lower than the one at x, or as low and wastes less, or as much and is not further right. */
  ghost predicate NoWorse(s: Sky, rw: int, a: int, x: int)
    requires |s| > 0 && s[0].x <= a && s[0].x <= x && 0 < rw
  {
    var y, z := Top(s, a, a + rw), Top(s, x, x + rw);
    var over, under := Gap(s, a, a + rw, y), Gap(s, x, x + rw, z);
    y < z || (y == z && (over < under || (over == under && a <= x)))
  }

  lemma NoWorseTrans(s: Sky, rw: int, a: int, b: int, c: int)
    requires |s| > 0 && s[0].x <= a && s[0].x <= b && s[0].x <= c && 0 < rw
    requires NoWorse(s, rw, a, b) && NoWorse(s, rw, b, c)
    ensures NoWorse(s, rw, a, c)
  {
  }

  /** Where no node is, the height does not change. */
  lemma SameHeight(s: Sky, width: int, height: int, x: int)
    requires Shape(s, width, height) && 0 < x < width
    requires forall j :: 0 <= j < |s| ==> s[j].x != x
    ensures HeightAt(s, x - 1) == HeightAt(s, x)
  {
    HeightBounds(s, width, height, x);
    HeightIs(s, width, height, Find(s, x, |s|), x - 1);
  }

  /** One column to the right: one column comes in, of a height that is already there, and the first goes. */
  lemma StepRight(s: Sky, width: int, height: int, rw: int, x: int)
    requires Shape(s, width, height) && 0 < rw && 0 <= x && x + rw < width
    requires HeightAt(s, x + rw) == HeightAt(s, x + rw - 1)
    ensures Top(s, x + 1, x + 1 + rw) <= Top(s, x, x + rw)
    ensures ColumnSum(s, x + 1, x + 1 + rw) == ColumnSum(s, x, x + rw) + HeightAt(s, x + rw) - HeightAt(s, x)
  {
    SumSplit(s, x, x + 1, x + rw);
    assert ColumnSum(s, x, x + 1) == ColumnSum(s, x, x) + HeightAt(s, x);
  }

  lemma StepLeft(s: Sky, width: int, height: int, rw: int, x: int)
    requires Shape(s, width, height) && 0 < rw && 0 < x && x + rw <= width
    requires HeightAt(s, x - 1) == HeightAt(s, x)
    ensures Top(s, x - 1, x - 1 + rw) <= Top(s, x, x + rw)
    ensures ColumnSum(s, x - 1, x - 1 + rw) == ColumnSum(s, x, x + rw) + HeightAt(s, x) - HeightAt(s, x + rw - 1)
  {
    SumSplit(s, x - 1, x, x + rw);
    assert ColumnSum(s, x - 1, x) == ColumnSum(s, x - 1, x - 1) + HeightAt(s, x - 1);
  }

  lemma GapPositive(s: Sky, width: int, height: int, rw: int, x: int)
    requires Shape(s, width, height) && 0 < rw && 0 <= x && x + rw <= width
    ensures 0 <= Top(s, x, x + rw) && 0 <= Gap(s, x, x + rw, Top(s, x, x + rw))
  {
    var t := Top(s, x, x + rw);
    forall c | x <= c < x + rw ensures 0 <= HeightAt(s, c) <= t {
      HeightBounds(s, width, height, c);
    }
    SumBounds(s, x, x + rw, 0, t);
    assert HeightAt(s, x) <= t;
  }

  lemma GapOf(s: Sky, rw: int, x: int, t: int)
    requires |s| > 0 && s[0].x <= x && 0 < rw
    ensures Gap(s, x, x + rw, t) == rw * t - ColumnSum(s, x, x + rw)
  {
    assert x + rw - x == rw;
  }

  /** A window that is no higher and covers taller columns is no worse. */
  lemma NoWorseBy(s: Sky, rw: int, a: int, x: int, t: int)
    requires |s| > 0 && s[0].x <= a && s[0].x <= x && 0 < rw
    requires Top(s, a, a + rw) <= t == Top(s, x, x + rw)
    requires var here, there := ColumnSum(s, a, a + rw), ColumnSum(s, x, x + rw);
             here > there || (here == there && a <= x)
    ensures NoWorse(s, rw, a, x)
  {
    GapOf(s, rw, a, t);
    GapOf(s, rw, x, t);
  }

  lemma BetterLeft(s: Sky, width: int, height: int, rw: int, x: int)
    requires Shape(s, width, height) && 0 < rw && 0 < x && x + rw <= width
    requires HeightAt(s, x + rw - 1) <= HeightAt(s, x) == HeightAt(s, x - 1)
    ensures NoWorse(s, rw, x - 1, x)
  {
    StepLeft(s, width, height, rw, x);
    NoWorseBy(s, rw, x - 1, x, Top(s, x, x + rw));
  }

  lemma BetterRight(s: Sky, width: int, height: int, rw: int, x: int)
    requires Shape(s, width, height) && 0 < rw && 0 <= x && x + rw < width
    requires HeightAt(s, x) < HeightAt(s, x + rw - 1) == HeightAt(s, x + rw)
    ensures NoWorse(s, rw, x + 1, x)
  {
    StepRight(s, width, height, rw, x);
    NoWorseBy(s, rw, x + 1, x, Top(s, x, x + rw));
  }

  /** A window with no edge at a node has a neighbour that is better. */
  lemma BetterNeighbour(s: Sky, width: int, height: int, rw: int, x: int) returns (a: int)
    requires Shape(s, width, height) && 0 < rw && 0 <= x && x + rw <= width && !EdgeAtNode(s, rw, x)
    ensures 0 <= a && a + rw <= width && a != x && NoWorse(s, rw, a, x)
  {
    assert s[0].x != x && s[|s| - 1].x != x + rw;
    SameHeight(s, width, height, x);
    SameHeight(s, width, height, x + rw);
    if HeightAt(s, x + rw - 1) <= HeightAt(s, x) {
      a := x - 1;
      BetterLeft(s, width, height, rw, x);
    } else {
      a := x + 1;
      BetterRight(s, width, height, rw, x);
    }
  }

  /** So every window can slide to one with an edge at a node that is no worse. */
  lemma {:induction false} SlideToEdge(s: Sky, width: int, height: int, rw: int, x: int) returns (a: int)
    requires Shape(s, width, height) && 0 < rw && 0 <= x && x + rw <= width
    ensures 0 <= a && a + rw <= width && EdgeAtNode(s, rw, a) && NoWorse(s, rw, a, x)
    decreases Top(s, x, x + rw), Gap(s, x, x + rw, Top(s, x, x + rw)), x
  {
    if EdgeAtNode(s, rw, x) {
      a := x;
    } else {
      var b := BetterNeighbour(s, width, height, rw, x);
      GapPositive(s, width, height, rw, b);
      GapPositive(s, width, height, rw, x);
      a := SlideToEdge(s, width, height, rw, b);
      NoWorseTrans(s, rw, a, b, x);
    }
  }

  // ----- Bottom-left -----------------------------------------------------------------------------

  ghost predicate LowerLeft(y: int, x: int, y': int, x': int) {
    y < y' || (y == y' && x <= x')
  }

  lemma {:induction false} BottomLeftChoice(c: Config, h: int, es: seq<Attempt>, best: Best, e: Attempt)
    requires c.heuristic.BottomLeft?
    requires forall i, j :: 0 <= i < j < |es| ==> es[i].x < es[j].x
    requires forall i :: 0 <= i < |es| ==> best.at.x <= es[i].x
    ensures var r := ChooseLeft(c, h, es, best);
            && LowerLeft(r.at.y, r.at.x, best.at.y, best.at.x)
            && (e in es ==> LowerLeft(r.at.y, r.at.x, e.y, e.x))
  {
    if es != [] {
      BottomLeftChoice(c, h, es[1..], if TakesLeft(c, h, es[0], best.at) then Best(true, es[0]) else best, e);
    }
  }

  /** Among the node positions, bottom-left chooses the least (y, x). */
  lemma {:induction false} BottomLeftOfNodes(c: Config, s: Sky, rw: int, h: int, k: nat)
    requires Shape(s, c.width, c.height) && 0 < rw && h <= c.height
    requires c.heuristic.BottomLeft?
    requires k < |s| && 0 <= s[k].x && s[k].x + rw <= c.width
    ensures var b := Search(c, s, rw, h);
            LowerLeft(b.at.y, b.at.x, Top(s, s[k].x, s[k].x + rw), s[k].x)
  {
    LeftTried(c, s, rw, 0, k);
    ReportTop(c, s, rw, s[k].x);
    LeftAttemptsTried(c, s, rw, 0);
    BottomLeftChoice(c, h, LeftAttempts(c, s, rw, 0), NoBest, Report(c, s, rw, s[k].x));
  }

  lemma LowerLeftTrans(a: int, b: int, c: int, d: int, e: int, f: int)
    requires LowerLeft(a, b, c, d) && LowerLeft(c, d, e, f)
    ensures LowerLeft(a, b, e, f)
  {
  }

  /**
    Bottom-left tries node positions only, yet its answer is the least (y, x) over every integer
    position of the window.
   */
  lemma BottomLeftLeast(c: Config, s: Sky, rw: int, h: int, x: int)
    requires Shape(s, c.width, c.height) && 0 < rw && h <= c.height
    requires c.heuristic.BottomLeft?
    requires 0 <= x && x + rw <= c.width
    ensures var b := Search(c, s, rw, h);
            LowerLeft(b.at.y, b.at.x, Top(s, x, x + rw), x)
  {
    var b := Search(c, s, rw, h);
    var k := Find(s, x, |s|);
    SlideLeft(s, c.width, c.height, rw, x);
    BottomLeftOfNodes(c, s, rw, h, k);
    LowerLeftTrans(b.at.y, b.at.x, Top(s, s[k].x, s[k].x + rw), s[k].x, Top(s, x, x + rw), x);
  }

  // ----- Best-fit --------------------------------------------------------------------------------

  /** The lexicographic order of best-fit: lower, then less reported waste, then further left. */
  ghost predicate FitsBetter(a: Attempt, b: Attempt) {
    a.y < b.y || (a.y == b.y && (a.waste < b.waste || (a.waste == b.waste && a.x <= b.x)))
  }

  lemma {:induction false} BestFitLeftChoice(c: Config, h: int, es: seq<Attempt>, best: Best, e: Attempt)
    requires ConfigOk(c) && c.heuristic.BestFit? && 0 < h
    requires forall i, j :: 0 <= i < j < |es| ==> es[i].x < es[j].x
    requires forall i :: 0 <= i < |es| ==> best.at.x <= es[i].x
    requires if best.found then best.at.y + h <= c.height else best == NoBest
    ensures var r := ChooseLeft(c, h, es, best);
            && FitsBetter(r.at, best.at)
            && (if r.found then r.at.y + h <= c.height else r == NoBest)
            && (e in es && e.y + h <= c.height ==> FitsBetter(r.at, e))
  {
    if es != [] {
      BestFitLeftChoice(c, h, es[1..], if TakesLeft(c, h, es[0], best.at) then Best(true, es[0]) else best, e);
    }
  }

  lemma {:induction false} BestFitRightChoice(c: Config, h: int, es: seq<Attempt>, best: Best, e: Attempt)
    requires ConfigOk(c) && 0 < h
    requires if best.found then best.at.y + h <= c.height else best == NoBest
    ensures var r := ChooseRight(c, h, es, best);
            && FitsBetter(r.at, best.at)
            && (if r.found then r.at.y + h <= c.height else r == NoBest)
            && (e in es && e.y + h <= c.height ==> FitsBetter(r.at, e))
  {
    if es != [] {
      BestFitRightChoice(c, h, es[1..], if TakesRight(c, h, es[0], best.at) then Best(true, es[0]) else best, e);
    }
  }

  lemma {:induction false} EdgeTried(c: Config, s: Sky, rw: int, x: int)
    requires Shape(s, c.width, c.height) && 0 < rw && 0 <= x && x + rw <= c.width
    requires EdgeAtNode(s, rw, x)
    ensures Report(c, s, rw, x) in LeftAttempts(c, s, rw, 0)
         || Report(c, s, rw, x) in RightAttempts(c, s, rw, 0)
  {
    var j :| 0 <= j < |s| && (s[j].x == x || s[j].x == x + rw);
    if s[j].x == x {
      LeftTried(c, s, rw, 0, j);
    } else {
      RightTried(c, s, rw, 0, j);
    }
  }

  /**
    Best-fit returns the least (y, reported waste, x) over all left-aligned and right-aligned
    positions that fit vertically.
   */
  lemma {:induction false} BestFitLeast(c: Config, s: Sky, rw: int, h: int, x: int)
    requires ConfigOk(c) && Shape(s, c.width, c.height) && 0 < rw && 0 < h <= c.height
    requires c.heuristic.BestFit?
    requires 0 <= x && x + rw <= c.width && EdgeAtNode(s, rw, x)
    requires Top(s, x, x + rw) + h <= c.height
    ensures var b := Search(c, s, rw, h);
            b.found && b.at.y + h <= c.height && FitsBetter(b.at, Report(c, s, rw, x))
  {
    ReportTop(c, s, rw, x);
    EdgeTried(c, s, rw, x);
    BestFitOfTried(c, s, rw, h, Report(c, s, rw, x));
  }

  lemma {:induction false} BestFitOfTried(c: Config, s: Sky, rw: int, h: int, e: Attempt)
    requires ConfigOk(c) && Shape(s, c.width, c.height) && 0 < rw <= c.width && 0 < h <= c.height
    requires c.heuristic.BestFit?
    requires e in LeftAttempts(c, s, rw, 0) || e in RightAttempts(c, s, rw, 0)
    requires e.y + h <= c.height
    ensures var b := Search(c, s, rw, h);
            b.found && b.at.y + h <= c.height && FitsBetter(b.at, e)
  {
    var lefts, rights := LeftAttempts(c, s, rw, 0), RightAttempts(c, s, rw, 0);
    LeftAttemptsTried(c, s, rw, 0);
    BestFitLeftChoice(c, h, lefts, NoBest, e);
    BestFitRightChoice(c, h, rights, ChooseLeft(c, h, lefts, NoBest), e);
  }

  // ----- When packing fails ----------------------------------------------------------------------

  /** A window of width rw at x leaves room for height h. */
  ghost predicate Fits(c: Config, s: Sky, rw: int, h: int, x: int)
    requires Shape(s, c.width, c.height) && 0 < rw
  {
    0 <= x && x + rw <= c.width && Top(s, x, x + rw) + h <= c.height
  }

  ghost predicate FitsSomewhere(c: Config, s: Sky, rw: int, h: int)
    requires Shape(s, c.width, c.height) && 0 < rw
  {
    exists x :: Fits(c, s, rw, h, x)
  }

  lemma TopBounds(s: Sky, width: int, height: int, x: int, rw: int)
    requires Shape(s, width, height) && 0 < rw && 0 <= x && x + rw <= width
    ensures 0 <= Top(s, x, x + rw) <= height
  {
    HeightBounds(s, width, height, x);
    assert 0 <= HeightAt(s, x) <= Top(s, x, x + rw);
    var c :| x <= c < x + rw && HeightAt(s, c) == Top(s, x, x + rw);
    HeightBounds(s, width, height, c);
  }

  /** With either heuristic, the position found is at least as low as every other one that fits. */
  lemma {:induction false} NoneLower(c: Config, s: Sky, rw: int, h: int, x: int)
    requires ConfigOk(c) && Shape(s, c.width, c.height) && 0 < rw && 0 < h
    requires Fits(c, s, rw, h, x)
    ensures var b := Search(c, s, rw, h);
            b.found && b.at.y + h <= c.height && b.at.y <= Top(s, x, x + rw)
  {
    TopBounds(s, c.width, c.height, x, rw);
    if c.heuristic.BottomLeft? {
      BottomLeftLeast(c, s, rw, h, x);
    } else {
      SlideLeft(s, c.width, c.height, rw, x);
      var a := s[Find(s, x, |s|)].x;
      assert EdgeAtNode(s, rw, a);
      BestFitLeast(c, s, rw, h, a);
      ReportTop(c, s, rw, a);
    }
  }

  lemma SearchFailsIff(c: Config, s: Sky, rw: int, h: int)
    requires ConfigOk(c) && Shape(s, c.width, c.height) && 0 < rw && 0 < h
    ensures var b := Search(c, s, rw, h);
            b.found && b.at.y + h <= c.height <==> FitsSomewhere(c, s, rw, h)
  {
    var b := Search(c, s, rw, h);
    SearchTried(c, s, rw, h);
    if b.found && b.at.y + h <= c.height {
      TriedTop(c, s, rw, b.at);
      assert Fits(c, s, rw, h, b.at.x);
    }
    if FitsSomewhere(c, s, rw, h) {
      var x :| Fits(c, s, rw, h, x);
      NoneLower(c, s, rw, h, x);
    }
  }

  /**
    Packing fails exactly when there is no free node or no integer position of the target leaves
    room for the rectangle at its rounded width.
   */
  lemma {:induction false} PackFailsIff(p: Packer, w: nat, h: int)
    requires ConfigOk(p.c) && Shape(p.sky, p.c.width, p.c.height) && 0 < w && 0 < h
    ensures Pack(p, w, h).1.NoRoom? <==>
            p.free == 0 || !FitsSomewhere(p.c, p.sky, Rounded(w, p.c.align), h)
  {
    SearchFailsIff(p.c, p.sky, Rounded(w, p.c.align), h);
  }
}
