/** What one packing step promises of its answer, in terms of the columns alone. */
module Outcomes {
  import opened Skyline
  import opened Packing
  import opened Splicing
  import opened Choosing
  import opened Runs
  import opened Grounds

  /** Position z, if it is one, is no lower than x, or as low and not further left. */
  ghost predicate NoneLeft(c: Config, s: Sky, rw: int, x: int, z: int)
    requires Shape(s, c.width, c.height) && 0 < rw && 0 <= x
  {
    0 <= z && z + rw <= c.width ==> LowerLeft(Top(s, x, x + rw), x, Top(s, z, z + rw), z)
  }

  /** Position z, if the rectangle fits there, is no better than x. */
  ghost predicate NoneBetter(c: Config, s: Sky, rw: int, h: int, x: int, z: int)
    requires Shape(s, c.width, c.height) && 0 < rw && 0 <= x
  {
    Fits(c, s, rw, h, z) ==> NoWorse(s, rw, x, z)
  }

  /** x is the position that the chosen heuristic asks for, among all integer positions. */
  ghost predicate WellChosen(c: Config, s: Sky, rw: int, h: int, x: int)
    requires Shape(s, c.width, c.height) && 0 < rw
  {
    && Fits(c, s, rw, h, x)
    && match c.heuristic
       case BottomLeft => forall z :: NoneLeft(c, s, rw, x, z)
       case BestFit => forall z :: NoneBetter(c, s, rw, h, x, z)
  }

  /** A w by h box now stands at (x, y), and the skyline is raised to its top, up to column e. */
  ghost predicate Stands(p: Packer, q: Packer, w: nat, h: int, x: int, y: int, e: int) {
    && q.c == p.c && q.placed == p.placed + [Box(x, y, w, h)]
    && Shape(p.sky, p.c.width, p.c.height) && Shape(q.sky, p.c.width, p.c.height)
    && |q.sky| + q.free == |p.sky| + p.free
    && x + w <= e <= p.c.width && Raised(p.sky, q.sky, p.c.width, x, e, y + h)
    && (p.c.heuristic.BottomLeft? || p.c.align == 1 ==> e == x + w)
  }

  /** What a step from p to q answers for a w by h rectangle, at its rounded width rw. */
  ghost predicate Outcome(p: Packer, q: Packer, w: nat, h: int, rw: int, answer: Placement)
    requires Shape(p.sky, p.c.width, p.c.height) && 0 < rw
  {
    match answer
    case NoRoom => q == p && (p.free == 0 || !FitsSomewhere(p.c, p.sky, rw, h))
    case PlacedAt(x, y) =>
      && 0 < p.free && WellChosen(p.c, p.sky, rw, h, x) && y == Top(p.sky, x, x + rw)
      && (exists e :: Stands(p, q, w, h, x, y, e))
      && q.waste == p.waste + Gap(p.sky, x, x + rw, y)
  }

  lemma SearchChooses(c: Config, s: Sky, rw: int, h: int, e: Attempt)
    requires ConfigOk(c) && Shape(s, c.width, c.height) && Grounded(s) && 0 < rw && 0 < h
    requires Search(c, s, rw, h) == Best(true, e) && e.y + h <= c.height
    ensures WellChosen(c, s, rw, h, e.x) && e.y == Top(s, e.x, e.x + rw)
    ensures e.waste == Gap(s, e.x, e.x + rw, e.y)
  {
    SearchTried(c, s, rw, h);
    TriedTop(c, s, rw, e);
    GroundedWaste(c, s, rw, e);
    match c.heuristic
    case BottomLeft =>
      forall z ensures NoneLeft(c, s, rw, e.x, z) {
        if 0 <= z && z + rw <= c.width {
          BottomLeftLeast(c, s, rw, h, z);
        }
      }
    case BestFit =>
      forall z ensures NoneBetter(c, s, rw, h, e.x, z) {
        if Fits(c, s, rw, h, z) {
          LeastAreaWasted(c, s, rw, h, z);
        }
      }
  }

  /** What is found with room is well chosen, and nothing is only where nothing fits. */
  lemma BestChooses(c: Config, s: Sky, w: nat, h: int)
    requires ConfigOk(c) && Shape(s, c.width, c.height) && 0 < w
    ensures var b := FindBest(c, s, w, h);
            0 < h ==>
              if b.found && b.at.y + h <= c.height then
                Grounded(s) ==> WellChosen(c, s, Rounded(w, c.align), h, b.at.x)
              else
                !FitsSomewhere(c, s, Rounded(w, c.align), h)
  {
    var b := FindBest(c, s, w, h);
    if 0 < h {
      SearchFailsIff(c, s, Rounded(w, c.align), h);
      if Grounded(s) && b.found && b.at.y + h <= c.height {
        SearchChooses(c, s, Rounded(w, c.align), h, b.at);
      }
    }
  }

  /** How far the skyline is raised. */
  lemma EndIs(p: Packer, e: Attempt, w: int)
    requires Shape(p.sky, p.c.width, p.c.height) && 0 < w && e.k + 1 < |p.sky|
    requires p.c.heuristic.BottomLeft? ==> p.sky[e.k].x == e.x
    requires p.c.align == 1 ==> Tried(p.c, p.sky, w, e) && EdgeAtNode(p.sky, w, e.x)
    ensures p.c.heuristic.BottomLeft? || p.c.align == 1 ==> RaisedEnd(p.sky, e.k, e.x, w) == e.x + w
  {
    if p.c.align == 1 {
      RaisedExactly(p.c, p.sky, w, e);
    }
  }

  lemma RaisedTo(p: Packer, e: Attempt, w: int, h: int, end: int)
    requires Shape(p.sky, p.c.width, p.c.height) && Lands(p, e, w, h)
    requires end == RaisedEnd(p.sky, e.k, e.x, w)
    requires p.c.heuristic.BottomLeft? || p.c.align == 1 ==> end == e.x + w
    ensures Stands(p, Place(p, e, w, h), w, h, e.x, e.y, end)
  {
    SpliceRaises(p.sky, p.c.width, p.c.height, e.k, e.x, w, e.y + h);
    NodesKept(p, e, w, h);
  }

  lemma NodesKept(p: Packer, e: Attempt, w: int, h: int)
    requires Shape(p.sky, p.c.width, p.c.height) && Lands(p, e, w, h)
    ensures |Place(p, e, w, h).sky| + Place(p, e, w, h).free == |p.sky| + p.free
  {
    SpliceShape(p.sky, p.c.width, p.c.height, e.k, e.x, w, e.y + h);
  }

  lemma PlaceOutcome(p: Packer, e: Attempt, w: nat, h: int, rw: int)
    requires ConfigOk(p.c) && Shape(p.sky, p.c.width, p.c.height) && Grounded(p.sky) && 0 < rw && 0 < h
    requires Search(p.c, p.sky, rw, h) == Best(true, e) && Lands(p, e, w, h) && e.y + h <= p.c.height
    requires p.c.align == 1 ==> rw == w
    ensures Outcome(p, Place(p, e, w, h), w, h, rw, PlacedAt(e.x, e.y))
  {
    SearchChooses(p.c, p.sky, rw, h, e);
    SearchTried(p.c, p.sky, rw, h);
    FoundAtEdge(p.c, p.sky, rw, h);
    EndIs(p, e, w);
    var end := RaisedEnd(p.sky, e.k, e.x, w);
    RaisedTo(p, e, w, h, end);
    Answers(p, Place(p, e, w, h), w, h, rw, e, end);
  }

  lemma Answers(p: Packer, q: Packer, w: nat, h: int, rw: int, e: Attempt, end: int)
    requires Shape(p.sky, p.c.width, p.c.height) && 0 < rw && 0 < p.free
    requires WellChosen(p.c, p.sky, rw, h, e.x) && e.y == Top(p.sky, e.x, e.x + rw)
    requires Stands(p, q, w, h, e.x, e.y, end) && q.waste == p.waste + Gap(p.sky, e.x, e.x + rw, e.y)
    ensures Outcome(p, q, w, h, rw, PlacedAt(e.x, e.y))
  {
  }

  /** A step answers as its heuristic asks, and does what it answers. */
  lemma PackOutcome(p: Packer, w: nat, h: int)
    requires PackerOk(p) && Grounded(p.sky) && 0 < w && 0 < h
    ensures Outcome(p, Pack(p, w, h).0, w, h, Rounded(w, p.c.align), Pack(p, w, h).1)
  {
    PackFailsIff(p, w, h);
    if Pack(p, w, h).1.PlacedAt? {
      var e := PackLands(p, w, h);
      PlaceOutcome(p, e, w, h, Rounded(w, p.c.align));
    }
  }
}
