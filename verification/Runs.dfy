/** Whole runs of packing calls on one target. */
module Runs {
  import opened Skyline
  import opened Packing
  import opened Splicing
  import opened Choosing

  datatype Request = Request(w: nat, h: nat)

  /** What stbrp_pack_rects does to the target for one rectangle: an empty one takes no room. */
  function Serve(p: Packer, r: Request): (Packer, Placement)
    requires PackerOk(p)
  {
    if r.w == 0 || r.h == 0 then (p, PlacedAt(0, 0)) else Pack(p, r.w, r.h)
  }

  function Run(p: Packer, rs: seq<Request>): (q: Packer)
    requires PackerOk(p)
    ensures PackerOk(q) && q.c == p.c
    decreases |rs|
  {
    if rs == [] then p
    else
      ServeOk(p, rs[0]);
      Run(Serve(p, rs[0]).0, rs[1..])
  }

  // ----- Invariants ------------------------------------------------------------------------------

  ghost predicate Inside(c: Config, b: Box) {
    0 < b.w && 0 < b.h && 0 <= b.x && b.x + b.w <= c.width && 0 <= b.y && b.y + b.h <= c.height
  }

  ghost predicate Apart(a: Box, b: Box) {
    a.x + a.w <= b.x || b.x + b.w <= a.x || a.y + a.h <= b.y || b.y + b.h <= a.y
  }

  ghost predicate Has(b: Box, x: int, y: int) {
    b.x <= x < b.x + b.w && b.y <= y < b.y + b.h
  }

  /** Two boxes are apart exactly if no pixel is in both. */
  lemma ApartIff(a: Box, b: Box)
    requires 0 < a.w && 0 < a.h && 0 < b.w && 0 < b.h
    ensures Apart(a, b) <==> forall x, y :: !(Has(a, x, y) && Has(b, x, y))
  {
    if !Apart(a, b) {
      var x, y := Max(a.x, b.x), Max(a.y, b.y);
      assert Has(a, x, y) && Has(b, x, y);
    }
  }

  /** The skyline stands at or above the top of b wherever b is. */
  ghost predicate Covered(s: Sky, b: Box)
    requires |s| > 0 && s[0].x <= b.x
  {
    forall c :: b.x <= c < b.x + b.w ==> b.y + b.h <= HeightAt(s, c)
  }

  /** Every placed box is inside the target and under the skyline, and clear of every earlier one. */
  ghost predicate Safe(c: Config, s: Sky, placed: seq<Box>)
    requires Shape(s, c.width, c.height)
  {
    placed == []
    || (var n := |placed| - 1;
        && Safe(c, s, placed[..n])
        && Inside(c, placed[n]) && Covered(s, placed[n])
        && forall i :: 0 <= i < n ==> Apart(placed[i], placed[n]))
  }

  lemma {:induction false} SafeAt(c: Config, s: Sky, placed: seq<Box>, i: nat)
    requires Shape(s, c.width, c.height) && Safe(c, s, placed) && i < |placed|
    ensures Inside(c, placed[i]) && Covered(s, placed[i])
    ensures forall j :: 0 <= j < i ==> Apart(placed[j], placed[i])
  {
    if i < |placed| - 1 {
      SafeAt(c, s, placed[..|placed| - 1], i);
    }
  }

  function Area(placed: seq<Box>): int {
    if placed == [] then 0
    else Area(placed[..|placed| - 1]) + placed[|placed| - 1].w * placed[|placed| - 1].h
  }

  ghost predicate PackerOk(p: Packer) {
    && ConfigOk(p.c)
    && Shape(p.sky, p.c.width, p.c.height)
    && |p.sky| + p.free == p.c.numNodes + 2
    && Safe(p.c, p.sky, p.placed)
    && Area(p.placed) <= ColumnSum(p.sky, 0, p.c.width)
  }

  lemma FreshOk(c: Config)
    requires ConfigOk(c)
    ensures PackerOk(Fresh(c)) && ColumnSum(Fresh(c).sky, 0, c.width) == 0
  {
    var s := Fresh(c).sky;
    SegmentFlat(s, c.width, c.height, 0, 0, c.width);
    SumFlat(s, 0, 0, c.width, 0);
  }

  /** Attempt e leaves room for a w by h rectangle, and nothing stands above its height there. */
  ghost predicate Lands(p: Packer, e: Attempt, w: int, h: int) {
    && 0 < w && 0 < h && 0 < p.free
    && 0 <= e.y
    && Spliceable(p.sky, p.c.width, p.c.height, e.k, e.x, w, e.y + h)
    && (forall c :: e.x <= c < RaisedEnd(p.sky, e.k, e.x, w) ==> HeightAt(p.sky, c) <= e.y)
  }

  /** A tried attempt lands at every width up to the one it was tried with. */
  lemma TriedLands(p: Packer, e: Attempt, w: int, h: int, rw: int)
    requires Shape(p.sky, p.c.width, p.c.height)
    requires 0 < w <= rw && 0 < h && 0 < p.free
    requires Tried(p.c, p.sky, rw, e) && e.y + h <= p.c.height
    ensures Lands(p, e, w, h)
  {
    var s := p.sky;
    TriedTop(p.c, s, rw, e);
    TopBounds(s, p.c.width, p.c.height, e.x, rw);
    forall c | e.x <= c < RaisedEnd(s, e.k, e.x, w) ensures HeightAt(s, c) <= e.y {
      assert HeightAt(s, e.x) <= Top(s, e.x, e.x + rw);
      if e.x + w <= c {
        RaisedPast(s, p.c.width, p.c.height, e.k, e.x, w, e.y + h, c);
      }
    }
  }

  /** A successful step places at an attempt that was tried at the rounded width and lands. */
  lemma PackLands(p: Packer, w: nat, h: int) returns (e: Attempt)
    requires ConfigOk(p.c) && Shape(p.sky, p.c.width, p.c.height) && 0 < w && 0 < h
    requires Pack(p, w, h).1.PlacedAt?
    ensures Tried(p.c, p.sky, Rounded(w, p.c.align), e) && Lands(p, e, w, h)
    ensures e == FindBest(p.c, p.sky, w, h).at
    ensures Pack(p, w, h) == (Place(p, e, w, h), PlacedAt(e.x, e.y))
  {
    e := FindBest(p.c, p.sky, w, h).at;
    TriedLands(p, e, w, h, Rounded(w, p.c.align));
  }

  lemma {:induction false} StaysSafe(c: Config, s: Sky, r: Sky, placed: seq<Box>, box: Box, end: int)
    requires Shape(s, c.width, c.height) && Shape(r, c.width, c.height) && Safe(c, s, placed)
    requires 0 <= box.x && 0 < box.h
    requires forall x :: box.x <= x < end ==> HeightAt(s, x) <= box.y
    requires Raised(s, r, c.width, box.x, end, box.y + box.h)
    ensures Safe(c, r, placed)
  {
    if placed != [] {
      var n := |placed| - 1;
      StaysSafe(c, s, r, placed[..n], box, end);
      StaysCovered(c, s, r, placed[n], box, end);
    }
  }

  /** A box put on top of everything under it is inside, covered, and clear of every earlier one. */
  lemma {:induction false} SafeAfter(c: Config, s: Sky, r: Sky, placed: seq<Box>, box: Box, end: int)
    requires Shape(s, c.width, c.height) && Shape(r, c.width, c.height) && Safe(c, s, placed)
    requires Inside(c, box) && box.x + box.w <= end
    requires forall x :: box.x <= x < end ==> HeightAt(s, x) <= box.y
    requires Raised(s, r, c.width, box.x, end, box.y + box.h)
    ensures Safe(c, r, placed + [box])
  {
    StaysSafe(c, s, r, placed, box, end);
    assert (placed + [box])[..|placed|] == placed;
    forall i | 0 <= i < |placed| ensures Apart(placed[i], box) {
      SafeAt(c, s, placed, i);
      var x := Max(placed[i].x, box.x);
      if x < placed[i].x + placed[i].w && x < box.x + box.w {
        assert placed[i].y + placed[i].h <= HeightAt(s, x) <= box.y;
      }
    }
  }

  lemma StaysCovered(c: Config, s: Sky, r: Sky, b: Box, box: Box, end: int)
    requires Shape(s, c.width, c.height) && Shape(r, c.width, c.height)
    requires Inside(c, b) && Covered(s, b) && 0 <= box.x && 0 < box.h
    requires forall x :: box.x <= x < end ==> HeightAt(s, x) <= box.y
    requires Raised(s, r, c.width, box.x, end, box.y + box.h)
    ensures Covered(r, b)
  {
    forall x | b.x <= x < b.x + b.w ensures b.y + b.h <= HeightAt(r, x) {
      assert b.y + b.h <= HeightAt(s, x);
    }
  }

  lemma RisesBy(wide: int, w: int, y: int, h: int, below: int)
    requires 0 <= w <= wide && 0 <= h && below <= wide * y
    ensures w * h <= wide * (y + h) - below
  {
  }

  /** The skyline rises by at least the area of a box put on top of everything under it. */
  lemma {:induction false} SumAfter(c: Config, s: Sky, r: Sky, box: Box, end: int)
    requires Shape(s, c.width, c.height) && Shape(r, c.width, c.height)
    requires Inside(c, box) && box.x + box.w <= end <= c.width
    requires forall x :: box.x <= x < end ==> HeightAt(s, x) <= box.y
    requires Raised(s, r, c.width, box.x, end, box.y + box.h)
    ensures ColumnSum(s, 0, c.width) + box.w * box.h <= ColumnSum(r, 0, c.width)
  {
    forall x | box.x <= x < end ensures 0 <= HeightAt(s, x) <= box.y {
      HeightBounds(s, c.width, c.height, x);
    }
    SumBounds(s, box.x, end, 0, box.y);
    RisesBy(end - box.x, box.w, box.y, box.h, ColumnSum(s, box.x, end));
    RaisedSum(s, r, c.width, box.x, end, box.y + box.h);
  }

  lemma {:induction false} AreaPush(placed: seq<Box>, b: Box)
    ensures Area(placed + [b]) == Area(placed) + b.w * b.h
  {
  }

  lemma OkAfter(p: Packer, q: Packer, box: Box, end: int)
    requires PackerOk(p) && q.c == p.c && Shape(q.sky, p.c.width, p.c.height)
    requires |q.sky| + q.free == |p.sky| + p.free && q.placed == p.placed + [box]
    requires Inside(p.c, box) && box.x + box.w <= end <= p.c.width
    requires forall x :: box.x <= x < end ==> HeightAt(p.sky, x) <= box.y
    requires Raised(p.sky, q.sky, p.c.width, box.x, end, box.y + box.h)
    ensures PackerOk(q)
  {
    SafeAfter(p.c, p.sky, q.sky, p.placed, box, end);
    SumAfter(p.c, p.sky, q.sky, box, end);
    AreaPush(p.placed, box);
  }

  lemma PlaceOk(p: Packer, e: Attempt, w: int, h: int)
    requires PackerOk(p) && Lands(p, e, w, h)
    ensures PackerOk(Place(p, e, w, h))
  {
    SpliceShape(p.sky, p.c.width, p.c.height, e.k, e.x, w, e.y + h);
    SpliceRaises(p.sky, p.c.width, p.c.height, e.k, e.x, w, e.y + h);
    OkAfter(p, Place(p, e, w, h), Box(e.x, e.y, w, h), RaisedEnd(p.sky, e.k, e.x, w));
  }

  /** Every step of a run keeps the invariant: shape, node count, safety and area. */
  lemma ServeOk(p: Packer, r: Request)
    requires PackerOk(p)
    ensures PackerOk(Serve(p, r).0) && Serve(p, r).0.c == p.c
  {
    if r.w > 0 && r.h > 0 && Pack(p, r.w, r.h).1.PlacedAt? {
      var e := PackLands(p, r.w, r.h);
      PlaceOk(p, e, r.w, r.h);
    }
  }

  lemma {:induction false} SafeUnder(c: Config, d: Config, s: Sky, placed: seq<Box>)
    requires Shape(s, c.width, c.height) && Safe(c, s, placed)
    requires d.width == c.width && d.height == c.height
    ensures Safe(d, s, placed)
  {
    if placed != [] {
      SafeUnder(c, d, s, placed[..|placed| - 1]);
    }
  }

  /** The heuristic and the alignment may change between two calls. */
  lemma ReconfigureOk(p: Packer, d: Config)
    requires PackerOk(p) && ConfigOk(d)
    requires d.width == p.c.width && d.height == p.c.height && d.numNodes == p.c.numNodes
    ensures PackerOk(p.(c := d))
  {
    SafeUnder(p.c, d, p.sky, p.placed);
  }

  /** A run takes one more request at its end as one more step. */
  lemma {:induction false} RunSnoc(p: Packer, rs: seq<Request>, r: Request)
    requires PackerOk(p)
    ensures Run(p, rs + [r]) == Serve(Run(p, rs), r).0
    decreases |rs|
  {
    if rs == [] {
      ServeOk(p, r);
    } else {
      ServeOk(p, rs[0]);
      assert (rs + [r])[1..] == rs[1..] + [r];
      RunSnoc(Serve(p, rs[0]).0, rs[1..], r);
    }
  }
}
