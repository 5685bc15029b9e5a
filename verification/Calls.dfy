/** Whole lives of a context: any sequence of packing and set-up calls. */
module Calls {
  import opened Skyline
  import opened Packing
  import opened Splicing
  import opened Choosing
  import opened Runs
  import opened Grounds

  /** One rectangle of stbrp_pack_rects, stbrp_setup_heuristic, or stbrp_setup_allow_out_of_mem */
  datatype Call = Rectangle(r: Request) | UseHeuristic(to: Heuristic) | AllowOutOfMem(allow: bool)

  function After(p: Packer, call: Call): (q: Packer)
    requires PackerOk(p)
    ensures PackerOk(q) && q.c.width == p.c.width && q.c.height == p.c.height
  {
    AfterOk(p, call);
    match call
    case Rectangle(r) => Serve(p, r).0
    case UseHeuristic(to) => p.(c := p.c.(heuristic := to))
    case AllowOutOfMem(allow) =>
      p.(c := p.c.(align := if allow then 1 else DefaultAlign(p.c.width, p.c.numNodes)))
  }

  lemma AfterOk(p: Packer, call: Call)
    requires PackerOk(p)
    ensures match call
            case Rectangle(r) => PackerOk(Serve(p, r).0) && Serve(p, r).0.c == p.c
            case UseHeuristic(to) => PackerOk(p.(c := p.c.(heuristic := to)))
            case AllowOutOfMem(allow) =>
              PackerOk(p.(c := p.c.(align := if allow then 1 else DefaultAlign(p.c.width, p.c.numNodes))))
  {
    match call
    case Rectangle(r) => ServeOk(p, r);
    case UseHeuristic(to) => ReconfigureOk(p, p.c.(heuristic := to));
    case AllowOutOfMem(allow) =>
      DefaultAlignPositive(p.c.width, p.c.numNodes);
      ReconfigureOk(p, p.c.(align := if allow then 1 else DefaultAlign(p.c.width, p.c.numNodes)));
  }

  function AfterAll(p: Packer, calls: seq<Call>): (q: Packer)
    requires PackerOk(p)
    ensures PackerOk(q) && q.c.width == p.c.width && q.c.height == p.c.height
    decreases |calls|
  {
    if calls == [] then p else AfterAll(After(p, calls[0]), calls[1..])
  }

  function Rectangles(rs: seq<Request>): seq<Call> {
    if rs == [] then [] else [Rectangle(rs[0])] + Rectangles(rs[1..])
  }

  /** Serving rectangles in a row is a life of that many calls. */
  lemma {:induction false} RunIsCalls(p: Packer, rs: seq<Request>)
    requires PackerOk(p)
    ensures AfterAll(p, Rectangles(rs)) == Run(p, rs)
    decreases |rs|
  {
    if rs != [] {
      assert Rectangles(rs)[1..] == Rectangles(rs[1..]);
      RunIsCalls(After(p, Rectangle(rs[0])), rs[1..]);
    }
  }

  /**
    Over any life of a context, whatever heuristics and alignments it is set to: every placed rectangle
    is inside the target, no two overlap, and together they never cover more than the target has.
   */
  lemma {:induction false} RunSafe(c: Config, calls: seq<Call>)
    requires ConfigOk(c)
    ensures PackerOk(Fresh(c))
    ensures var q := AfterAll(Fresh(c), calls);
            && (forall i :: 0 <= i < |q.placed| ==> Inside(q.c, q.placed[i]))
            && (forall i, j :: 0 <= i < j < |q.placed| ==> Apart(q.placed[i], q.placed[j]))
            && Area(q.placed) <= c.width * c.height
  {
    FreshOk(c);
    var q := AfterAll(Fresh(c), calls);
    forall i | 0 <= i < |q.placed|
      ensures Inside(q.c, q.placed[i]) && forall j :: 0 <= j < i ==> Apart(q.placed[j], q.placed[i])
    {
      SafeAt(q.c, q.sky, q.placed, i);
    }
    forall x | 0 <= x < c.width ensures 0 <= HeightAt(q.sky, x) <= c.height {
      HeightBounds(q.sky, c.width, c.height, x);
    }
    SumBounds(q.sky, 0, c.width, 0, c.height);
  }

  // ----- Waste -------------------------------------------------------------------------------------

  lemma {:induction false} AllGrounded(p: Packer, calls: seq<Call>)
    requires PackerOk(p) && Grounded(p.sky)
    ensures Grounded(AfterAll(p, calls).sky)
    decreases |calls|
  {
    if calls != [] {
      if calls[0].Rectangle? {
        ServeGrounded(p, calls[0].r);
      }
      AllGrounded(After(p, calls[0]), calls[1..]);
    }
  }

  /** In every state that is reached, each attempt, at any width, reports the exact area it would waste. */
  lemma {:induction false} ReachableWaste(c: Config, calls: seq<Call>, rw: int, e: Attempt)
    requires ConfigOk(c) && 0 < rw
    ensures PackerOk(Fresh(c))
    ensures var q := AfterAll(Fresh(c), calls);
            Tried(q.c, q.sky, rw, e) ==> e.waste == Gap(q.sky, e.x, e.x + rw, e.y)
  {
    FreshOk(c);
    AllGrounded(Fresh(c), calls);
    var q := AfterAll(Fresh(c), calls);
    if Tried(q.c, q.sky, rw, e) {
      GroundedWaste(q.c, q.sky, rw, e);
    }
  }

  /** And so best-fit, in every such state, chooses the least (y, area wasted, x) of all positions that fit. */
  lemma {:induction false} ReachableBestFit(c: Config, calls: seq<Call>, rw: int, h: int, x: int)
    requires ConfigOk(c) && 0 < rw && 0 < h <= c.height && 0 <= x && x + rw <= c.width
    ensures PackerOk(Fresh(c))
    ensures var q := AfterAll(Fresh(c), calls);
            q.c.heuristic.BestFit? && Top(q.sky, x, x + rw) + h <= c.height ==>
              var b := Search(q.c, q.sky, rw, h);
              b.found && b.at.y + h <= c.height && 0 <= b.at.x && NoWorse(q.sky, rw, b.at.x, x)
  {
    FreshOk(c);
    AllGrounded(Fresh(c), calls);
    var q := AfterAll(Fresh(c), calls);
    if q.c.heuristic.BestFit? && Top(q.sky, x, x + rw) + h <= c.height {
      LeastAreaWasted(q.c, q.sky, rw, h, x);
    }
  }

  // ----- Area --------------------------------------------------------------------------------------

  /** The heights add up to the area placed and the waste reported. */
  ghost predicate Balanced(p: Packer)
    requires PackerOk(p)
  {
    ColumnSum(p.sky, 0, p.c.width) == Area(p.placed) + p.waste
  }

  lemma PlaceRaises(p: Packer, e: Attempt, w: int, h: int)
    requires Shape(p.sky, p.c.width, p.c.height) && Lands(p, e, w, h)
    requires RaisedEnd(p.sky, e.k, e.x, w) == e.x + w
    ensures var q := Place(p, e, w, h);
            && Shape(q.sky, p.c.width, p.c.height)
            && Raised(p.sky, q.sky, p.c.width, e.x, e.x + w, e.y + h)
            && q.placed == p.placed + [Box(e.x, e.y, w, h)] && q.waste == p.waste + e.waste
  {
    SpliceRaises(p.sky, p.c.width, p.c.height, e.k, e.x, w, e.y + h);
  }

  lemma ConservesAfter(p: Packer, q: Packer, e: Attempt, w: int, h: int)
    requires Shape(p.sky, p.c.width, p.c.height) && 0 < w && 0 <= e.x && e.x + w <= p.c.width
    requires e.waste == Gap(p.sky, e.x, e.x + w, e.y)
    requires Raised(p.sky, q.sky, p.c.width, e.x, e.x + w, e.y + h)
    requires q.placed == p.placed + [Box(e.x, e.y, w, h)] && q.waste == p.waste + e.waste
    ensures ColumnSum(q.sky, 0, p.c.width) - Area(q.placed) - q.waste
         == ColumnSum(p.sky, 0, p.c.width) - Area(p.placed) - p.waste
  {
    RaisedSum(p.sky, q.sky, p.c.width, e.x, e.x + w, e.y + h);
    AreaPush(p.placed, Box(e.x, e.y, w, h));
    assert w * (e.y + h) == w * e.y + w * h;
  }

  /** A box with its own width at a node accounts for all area under it. */
  lemma PlaceConserves(p: Packer, e: Attempt, w: int, h: int)
    requires Shape(p.sky, p.c.width, p.c.height) && Grounded(p.sky) && Lands(p, e, w, h)
    requires Tried(p.c, p.sky, w, e) && EdgeAtNode(p.sky, w, e.x)
    ensures var q := Place(p, e, w, h);
            && Shape(q.sky, p.c.width, p.c.height)
            && ColumnSum(q.sky, 0, p.c.width) - Area(q.placed) - q.waste
               == ColumnSum(p.sky, 0, p.c.width) - Area(p.placed) - p.waste
  {
    RaisedExactly(p.c, p.sky, w, e);
    GroundedWaste(p.c, p.sky, w, e);
    PlaceRaises(p, e, w, h);
    ConservesAfter(p, Place(p, e, w, h), e, w, h);
  }

  lemma ServeBalanced(p: Packer, r: Request)
    requires PackerOk(p) && Grounded(p.sky) && p.c.align == 1 && Balanced(p)
    ensures PackerOk(Serve(p, r).0) && Balanced(Serve(p, r).0)
  {
    ServeOk(p, r);
    if r.w > 0 && r.h > 0 && Pack(p, r.w, r.h).1.PlacedAt? {
      var e := PackLands(p, r.w, r.h);
      assert Rounded(r.w, p.c.align) == r.w;
      FoundAtEdge(p.c, p.sky, r.w, r.h);
      PlaceConserves(p, e, r.w, r.h);
    }
  }

  /** Every rectangle is packed at alignment 1. */
  ghost predicate Unquantised(p: Packer, calls: seq<Call>)
    requires PackerOk(p)
    decreases |calls|
  {
    calls == [] || ((calls[0].Rectangle? ==> p.c.align == 1) && Unquantised(After(p, calls[0]), calls[1..]))
  }

  lemma {:induction false} AllBalanced(p: Packer, calls: seq<Call>)
    requires PackerOk(p) && Grounded(p.sky) && Balanced(p) && Unquantised(p, calls)
    ensures Balanced(AfterAll(p, calls))
    decreases |calls|
  {
    if calls != [] {
      if calls[0].Rectangle? {
        ServeGrounded(p, calls[0].r);
        ServeBalanced(p, calls[0].r);
      }
      AllBalanced(After(p, calls[0]), calls[1..]);
    }
  }

  /**
    Over any life in which rectangles are packed at alignment 1, with either heuristic, the sum of the
    column heights is the area placed plus the waste reported for the positions taken.
   */
  lemma {:induction false} RunConserves(c: Config, calls: seq<Call>)
    requires ConfigOk(c)
    ensures PackerOk(Fresh(c))
    ensures var q := AfterAll(Fresh(c), calls);
            Unquantised(Fresh(c), calls) ==> ColumnSum(q.sky, 0, c.width) == Area(q.placed) + q.waste
  {
    FreshOk(c);
    if Unquantised(Fresh(c), calls) {
      AllBalanced(Fresh(c), calls);
    }
  }
}
