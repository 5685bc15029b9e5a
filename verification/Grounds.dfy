/**
  What makes the reported waste exact in every state that is reached: only the last stretch of the
  skyline can be at height 0.
 */
module Grounds {
  import opened Skyline
  import opened Packing
  import opened Splicing
  import opened Choosing
  import opened Runs

  ghost predicate Grounded(s: Sky) {
    forall i :: 0 <= i < |s| - 2 ==> s[i].y > 0
  }

  /** Then every attempt reports the exact area between the skyline and its height. */
  lemma GroundedWaste(c: Config, s: Sky, rw: int, e: Attempt)
    requires Shape(s, c.width, c.height) && Grounded(s) && 0 < rw && Tried(c, s, rw, e)
    ensures e.waste == Gap(s, e.x, e.x + rw, e.y)
  {
    assert s[e.k].y > 0 || e.k == |s| - 2;
    ProbeExact(s, c.width, c.height, e.k, e.x, rw);
  }

  // ----- Where a rectangle goes ----------------------------------------------------------------------

  lemma {:induction false} LeftAtNode(c: Config, s: Sky, rw: int, k: nat, e: Attempt)
    requires Shape(s, c.width, c.height) && 0 < rw && k < |s|
    requires e in LeftAttempts(c, s, rw, k)
    ensures e.k < |s| && s[e.k].x == e.x
    decreases |s| - k
  {
    if e != AttemptAt(s, k, s[k].x, rw) {
      LeftAtNode(c, s, rw, k + 1, e);
    }
  }

  lemma {:induction false} RightAtNode(c: Config, s: Sky, rw: int, t: nat, e: Attempt)
    requires Shape(s, c.width, c.height) && 0 < rw && t <= |s|
    requires e in RightAttempts(c, s, rw, t)
    ensures EdgeAtNode(s, rw, e.x)
    decreases |s| - t
  {
    if s[t].x - rw == e.x {
      assert s[t].x == e.x + rw;
    } else {
      RightAtNode(c, s, rw, t + 1, e);
    }
  }

  /** Either heuristic puts one edge of the window on a node; bottom-left the left one. */
  lemma {:induction false} FoundAtEdge(c: Config, s: Sky, rw: int, h: int)
    requires Shape(s, c.width, c.height) && 0 < rw && Search(c, s, rw, h).found
    ensures var e := Search(c, s, rw, h).at;
            && EdgeAtNode(s, rw, e.x)
            && (c.heuristic.BottomLeft? ==> e.k < |s| && s[e.k].x == e.x)
  {
    var e := Search(c, s, rw, h).at;
    if e in LeftAttempts(c, s, rw, 0) {
      LeftAtNode(c, s, rw, 0, e);
      assert s[e.k].x == e.x;
    } else {
      RightAtNode(c, s, rw, 0, e);
    }
  }

  /** With its own width on a node, a window is raised nowhere beyond its right edge. */
  lemma RaisedExactly(c: Config, s: Sky, w: int, e: Attempt)
    requires Shape(s, c.width, c.height) && 0 < w && Tried(c, s, w, e) && EdgeAtNode(s, w, e.x)
    ensures RaisedEnd(s, e.k, e.x, w) == e.x + w
  {
    var j :| 0 <= j < |s| && (s[j].x == e.x || s[j].x == e.x + w);
    if s[e.k].x < e.x {
      assert j > e.k;
      assert s[e.k + 1].x <= s[j].x;
    }
  }

  // ----- Every step keeps it -------------------------------------------------------------------------

  /** On the last stretch, at height 0, nothing is wasted. */
  lemma GroundReport(c: Config, s: Sky, rw: int, x: int)
    requires Shape(s, c.width, c.height) && Grounded(s) && 0 < rw && x + rw <= c.width
    requires s[|s| - 2].x <= x && s[|s| - 2].y == 0
    ensures 0 <= x && Top(s, x, x + rw) == 0 && Report(c, s, rw, x).waste == 0
  {
    var k := |s| - 2;
    HeightIs(s, c.width, c.height, k, x);
    SegmentFlat(s, c.width, c.height, k, x, x + rw);
    SumFlat(s, x, x, x + rw, 0);
    TopUnique(s, x, x + rw, 0);
    ReportTop(c, s, rw, x);
    GroundedWaste(c, s, rw, Report(c, s, rw, x));
  }

  /** At height 0 a position with its left edge at a node beats every one further right. */
  lemma GroundChoice(c: Config, s: Sky, rw: int, h: int)
    requires ConfigOk(c) && Shape(s, c.width, c.height) && Grounded(s) && 0 < rw && 0 < h
    requires Search(c, s, rw, h).found
    ensures var e := Search(c, s, rw, h).at;
            e.k + 1 < |s| && s[e.k].x <= e.x && (s[e.k].y > 0 || s[e.k].x == e.x)
  {
    var e, k := Search(c, s, rw, h).at, |s| - 2;
    SearchTried(c, s, rw, h);
    FoundAtEdge(c, s, rw, h);
    if c.heuristic.BestFit? && e.k == k && s[k].y == 0 {
      TriedTop(c, s, rw, e);
      GroundReport(c, s, rw, e.x);
      GroundReport(c, s, rw, s[k].x);
      assert EdgeAtNode(s, rw, s[k].x);
      ReportTop(c, s, rw, s[k].x);
      BestFitLeast(c, s, rw, h, s[k].x);
    }
  }

  lemma GroundedJoined(s: Sky, i: nat, m: nat, pt: Pt, e: int, r: Sky)
    requires Grounded(s) && Joined(r, s, i, m, pt, e) && 0 < pt.y
    requires i <= m && (0 < i ==> s[i - 1].y > 0 || i <= |s| - 2)
    ensures Grounded(r)
  {
    forall l | 0 <= l < |r| - 2 ensures r[l].y > 0 {
      if l > i + 1 {
        assert r[l] == s[l - i - 1 + m];
      }
    }
  }

  lemma GroundedPlace(p: Packer, e: Attempt, w: int, h: int)
    requires Shape(p.sky, p.c.width, p.c.height) && Grounded(p.sky) && Lands(p, e, w, h)
    requires p.sky[e.k].y > 0 || p.sky[e.k].x == e.x
    ensures Grounded(Place(p, e, w, h).sky)
  {
    var s, top := p.sky, e.y + h;
    var i := CutStart(s, e.k, e.x);
    SpliceJoins(s, p.c.width, p.c.height, e.k, e.x, w, top);
    GroundedJoined(s, i, CutEnd(s, i, e.x + w), Pt(e.x, top), RaisedEnd(s, e.k, e.x, w), Splice(s, e.k, e.x, w, top));
  }

  lemma ServeGrounded(p: Packer, r: Request)
    requires PackerOk(p) && Grounded(p.sky)
    ensures Grounded(Serve(p, r).0.sky)
  {
    if r.w > 0 && r.h > 0 && Pack(p, r.w, r.h).1.PlacedAt? {
      var e := PackLands(p, r.w, r.h);
      GroundChoice(p.c, p.sky, Rounded(r.w, p.c.align), r.h);
      GroundedPlace(p, e, r.w, r.h);
    }
  }

  /**
    In such a state best-fit minimises the wasted area itself: over every integer position at which the
    rectangle fits, its choice is the least (y, area wasted, x).
   */
  lemma LeastAreaWasted(c: Config, s: Sky, rw: int, h: int, x: int)
    requires ConfigOk(c) && Shape(s, c.width, c.height) && Grounded(s) && 0 < rw && 0 < h <= c.height
    requires c.heuristic.BestFit?
    requires 0 <= x && x + rw <= c.width && Top(s, x, x + rw) + h <= c.height
    ensures var b := Search(c, s, rw, h);
            b.found && Tried(c, s, rw, b.at) && b.at.y + h <= c.height && NoWorse(s, rw, b.at.x, x)
  {
    var a := SlideToEdge(s, c.width, c.height, rw, x);
    LeastOfEdges(c, s, rw, h, a);
    NoWorseTrans(s, rw, Search(c, s, rw, h).at.x, a, x);
  }

  lemma LeastOfEdges(c: Config, s: Sky, rw: int, h: int, x: int)
    requires ConfigOk(c) && Shape(s, c.width, c.height) && Grounded(s) && 0 < rw && 0 < h <= c.height
    requires c.heuristic.BestFit?
    requires 0 <= x && x + rw <= c.width && EdgeAtNode(s, rw, x)
    requires Top(s, x, x + rw) + h <= c.height
    ensures var b := Search(c, s, rw, h);
            b.found && Tried(c, s, rw, b.at) && b.at.y + h <= c.height && NoWorse(s, rw, b.at.x, x)
  {
    BestFitLeast(c, s, rw, h, x);
    SearchTried(c, s, rw, h);
    ReportTried(c, s, rw, x);
    BetterIsNoWorse(c, s, rw, Search(c, s, rw, h).at, Report(c, s, rw, x));
  }

  /** What an attempt says is true of its window. */
  lemma TriedTells(c: Config, s: Sky, rw: int, e: Attempt)
    requires Shape(s, c.width, c.height) && Grounded(s) && 0 < rw && Tried(c, s, rw, e)
    ensures 0 <= e.x && e.y == Top(s, e.x, e.x + rw) && e.waste == Gap(s, e.x, e.x + rw, e.y)
  {
    TriedTop(c, s, rw, e);
    GroundedWaste(c, s, rw, e);
  }

  lemma BetterIsNoWorse(c: Config, s: Sky, rw: int, e: Attempt, r: Attempt)
    requires Shape(s, c.width, c.height) && Grounded(s) && 0 < rw
    requires Tried(c, s, rw, e) && Tried(c, s, rw, r) && FitsBetter(e, r)
    ensures NoWorse(s, rw, e.x, r.x)
  {
    TriedTells(c, s, rw, e);
    TriedTells(c, s, rw, r);
  }

  lemma ReportTried(c: Config, s: Sky, rw: int, x: int)
    requires Shape(s, c.width, c.height) && 0 < rw && 0 <= x && x + rw <= c.width
    ensures Tried(c, s, rw, Report(c, s, rw, x))
  {
    HeightBounds(s, c.width, c.height, x);
  }
}
