/**
  The skyline as a value: the active list of the packer, read as the sequence of its (x, y) points.
  Point i covers the columns from its own x up to the x of point i+1; the last point is the sentinel
  that stands at the right edge of the target.
 */
module Skyline {

  datatype Pt = Pt(x: int, y: int)

  type Sky = seq<Pt>

  ghost predicate Shape(s: Sky, width: int, height: int) {
    && |s| >= 2
    && s[0].x == 0
    && s[|s| - 1].x == width
    && (forall i, j :: 0 <= i < j < |s| ==> s[i].x < s[j].x)
    && (forall i :: 0 <= i < |s| - 1 ==> 0 <= s[i].y <= height)
  }

  // ----- Column heights ------------------------------------------------------------------------

  /** The last of the first n points that does not lie to the right of column c. */
  function Find(s: Sky, c: int, n: nat): (i: nat)
    requires 0 < n <= |s| && s[0].x <= c
    ensures i < n
  {
    if s[n - 1].x <= c then n - 1 else Find(s, c, n - 1)
  }

  lemma {:induction false} FindHolds(s: Sky, c: int, n: nat)
    requires 0 < n <= |s| && s[0].x <= c
    ensures var i := Find(s, c, n); s[i].x <= c && (i + 1 < n ==> c < s[i + 1].x)
  {
    if s[n - 1].x > c {
      FindHolds(s, c, n - 1);
    }
  }

  /** The height of the skyline over column c, looking at the first n points. */
  function HeightUpTo(s: Sky, c: int, n: nat): int
    requires 0 < n <= |s| && s[0].x <= c
  {
    if s[n - 1].x <= c then s[n - 1].y else HeightUpTo(s, c, n - 1)
  }

  function HeightAt(s: Sky, c: int): int
    requires |s| > 0 && s[0].x <= c
  {
    HeightUpTo(s, c, |s|)
  }

  lemma {:induction false} HeightFound(s: Sky, c: int, n: nat)
    requires 0 < n <= |s| && s[0].x <= c
    ensures HeightUpTo(s, c, n) == s[Find(s, c, n)].y
  {
    if s[n - 1].x > c {
      HeightFound(s, c, n - 1);
    }
  }

  /** The height over column c is that of the point whose segment holds c. */
  lemma {:induction false} HeightIs(s: Sky, width: int, height: int, i: nat, c: int)
    requires Shape(s, width, height)
    requires i + 1 < |s| && s[i].x <= c < s[i + 1].x
    ensures Find(s, c, |s|) == i && HeightAt(s, c) == s[i].y
  {
    FindHolds(s, c, |s|);
    HeightFound(s, c, |s|);
  }

  lemma {:induction false} HeightBounds(s: Sky, width: int, height: int, c: int)
    requires Shape(s, width, height) && 0 <= c < width
    ensures 0 <= HeightAt(s, c) <= height
    ensures var i := Find(s, c, |s|); i + 1 < |s| && s[i].x <= c < s[i + 1].x
    ensures HeightAt(s, c) == s[Find(s, c, |s|)].y
  {
    FindHolds(s, c, |s|);
    HeightFound(s, c, |s|);
  }

  function Max(a: int, b: int): int { if a < b then b else a }

  function Min(a: int, b: int): int { if a < b then a else b }

  /** The greatest column height over the columns from a up to b. */
  function Top(s: Sky, a: int, b: int): (t: int)
    requires |s| > 0 && s[0].x <= a < b
    ensures forall c :: a <= c < b ==> HeightAt(s, c) <= t
    ensures exists c :: a <= c < b && HeightAt(s, c) == t
    decreases b - a
  {
    var last := HeightAt(s, b - 1);
    if a == b - 1 then
      assert HeightAt(s, a) == last;
      last
    else
      var rest := Top(s, a, b - 1);
      assert HeightAt(s, b - 1) == last;
      Max(rest, last)
  }

  lemma {:induction false} TopUnique(s: Sky, a: int, b: int, t: int)
    requires |s| > 0 && s[0].x <= a < b
    requires forall c :: a <= c < b ==> HeightAt(s, c) <= t
    requires exists c :: a <= c < b && HeightAt(s, c) == t
    ensures Top(s, a, b) == t
  {
  }

  /** The sum of the column heights from a up to b. */
  function ColumnSum(s: Sky, a: int, b: int): int
    requires |s| > 0 && s[0].x <= a <= b
    decreases b - a
  {
    if a == b then 0 else ColumnSum(s, a, b - 1) + HeightAt(s, b - 1)
  }

  /** The area between the skyline and height t over the columns from a up to b. */
  function Gap(s: Sky, a: int, b: int, t: int): int
    requires |s| > 0 && s[0].x <= a <= b
  {
    (b - a) * t - ColumnSum(s, a, b)
  }

  lemma {:induction false} SumFlat(s: Sky, a: int, b: int, e: int, y: int)
    requires |s| > 0 && s[0].x <= a <= b <= e
    requires forall c :: b <= c < e ==> HeightAt(s, c) == y
    ensures ColumnSum(s, a, e) == ColumnSum(s, a, b) + (e - b) * y
    decreases e - b
  {
    if b < e {
      SumFlat(s, a, b, e - 1, y);
      assert HeightAt(s, e - 1) == y;
      assert (e - b) * y == (e - 1 - b) * y + y;
    }
  }

  lemma {:induction false} SumSplit(s: Sky, a: int, m: int, b: int)
    requires |s| > 0 && s[0].x <= a <= m <= b
    ensures ColumnSum(s, a, b) == ColumnSum(s, a, m) + ColumnSum(s, m, b)
    decreases b - m
  {
    if m < b {
      SumSplit(s, a, m, b - 1);
    }
  }

  lemma {:induction false} SumAgree(s: Sky, r: Sky, a: int, b: int)
    requires |s| > 0 && |r| > 0 && s[0].x <= a <= b && r[0].x <= a
    requires forall c :: a <= c < b ==> HeightAt(s, c) == HeightAt(r, c)
    ensures ColumnSum(s, a, b) == ColumnSum(r, a, b)
    decreases b - a
  {
    if a < b {
      SumAgree(s, r, a, b - 1);
      assert HeightAt(s, b - 1) == HeightAt(r, b - 1);
    }
  }

  lemma {:induction false} SumBounds(s: Sky, a: int, b: int, lo: int, hi: int)
    requires |s| > 0 && s[0].x <= a <= b
    requires forall c :: a <= c < b ==> lo <= HeightAt(s, c) <= hi
    ensures (b - a) * lo <= ColumnSum(s, a, b) <= (b - a) * hi
    decreases b - a
  {
    if a < b {
      SumBounds(s, a, b - 1, lo, hi);
      assert lo <= HeightAt(s, b - 1) <= hi;
      assert (b - a) * lo == (b - 1 - a) * lo + lo;
      assert (b - a) * hi == (b - 1 - a) * hi + hi;
    }
  }

  // ----- The window scan (stbrp__skyline_find_min_y) -------------------------------------------

  /** The locals of the scan: the height found so far, its waste, and the width visited. */
  datatype Scan = Scan(minY: int, waste: int, visited: int)

  /**
    One round of the scan's loop over a point of height y: it covers `all` columns, `inside` of them
    not to the left of the window.
   */
  function Round(a: Scan, y: int, all: int, inside: int, w: int): (r: Scan)
    ensures r.minY == Max(a.minY, y)
  {
    if y > a.minY then
      Scan(y, a.waste + a.visited * (y - a.minY), a.visited + inside)
    else
      var under := if all + a.visited > w then w - a.visited else all;
      Scan(a.minY, a.waste + under * (a.minY - y), a.visited + under)
  }

  function VisitStep(s: Sky, j: nat, x0: int, w: int, a: Scan): (r: Scan)
    requires j + 1 < |s|
  {
    var all := s[j + 1].x - s[j].x;
    Round(a, s[j].y, all, if s[j].x < x0 then s[j + 1].x - x0 else all, w)
  }

  /** The scan from point j on. */
  function Visit(s: Sky, j: nat, x0: int, w: int, a: Scan): Scan
    requires j < |s| && x0 + w <= s[|s| - 1].x
    decreases |s| - j
  {
    if s[j].x >= x0 + w then a else Visit(s, j + 1, x0, w, VisitStep(s, j, x0, w, a))
  }

  /** What the scan reports for a window of width w at x0 that starts over point k. */
  function Probe(s: Sky, k: nat, x0: int, w: int): Scan
    requires k < |s| && x0 + w <= s[|s| - 1].x
  {
    Visit(s, k, x0, w, Scan(0, 0, 0))
  }

  /** y is the greatest of 0 and the heights of the columns from a up to b. */
  ghost predicate Reaches(s: Sky, a: int, b: int, y: int)
    requires |s| > 0 && s[0].x <= a
  {
    && 0 <= y
    && (forall c :: a <= c < b ==> HeightAt(s, c) <= y)
    && (y == 0 || exists c :: a <= c < b && HeightAt(s, c) == y)
  }

  /** The columns of a window that lie over point j all have its height. */
  lemma SegmentFlat(s: Sky, width: int, height: int, j: nat, a: int, b: int)
    requires Shape(s, width, height)
    requires j + 1 < |s| && s[j].x <= a <= b <= s[j + 1].x
    ensures forall c :: a <= c < b ==> HeightAt(s, c) == s[j].y
  {
    forall c | a <= c < b ensures HeightAt(s, c) == s[j].y {
      HeightIs(s, width, height, j, c);
    }
  }

  lemma ReachesStep(s: Sky, width: int, height: int, j: nat, x0: int, x1: int, y: int)
    requires Shape(s, width, height) && 0 <= x0 < x1
    requires j + 1 < |s| && x0 < s[j + 1].x && s[j].x < x1
    requires Reaches(s, x0, Min(s[j].x, x1), y)
    ensures Reaches(s, x0, Min(s[j + 1].x, x1), Max(y, s[j].y))
  {
    var a, b := Max(s[j].x, x0), Min(s[j + 1].x, x1);
    SegmentFlat(s, width, height, j, a, b);
    assert HeightAt(s, a) == s[j].y;
  }

  /** The height found from point j on, without the waste. */
  ghost function Climb(s: Sky, j: nat, x1: int, y: int): int
    requires j < |s| && x1 <= s[|s| - 1].x
    decreases |s| - j
  {
    if s[j].x >= x1 then y else Climb(s, j + 1, x1, Max(y, s[j].y))
  }

  lemma {:induction false} VisitClimbs(s: Sky, j: nat, x0: int, w: int, a: Scan)
    requires j < |s| && x0 + w <= s[|s| - 1].x
    ensures Visit(s, j, x0, w, a).minY == Climb(s, j, x0 + w, a.minY)
    decreases |s| - j
  {
    if s[j].x < x0 + w {
      VisitClimbs(s, j + 1, x0, w, VisitStep(s, j, x0, w, a));
    }
  }

  lemma {:induction false} ClimbReaches(s: Sky, width: int, height: int, j: nat, x0: int, x1: int, y: int)
    requires Shape(s, width, height) && 0 <= x0 < x1 <= width
    requires j < |s| && (j + 1 < |s| ==> x0 < s[j + 1].x)
    requires Reaches(s, x0, Min(s[j].x, x1), y)
    ensures Reaches(s, x0, x1, Climb(s, j, x1, y))
    decreases |s| - j
  {
    if s[j].x < x1 {
      ReachesStep(s, width, height, j, x0, x1, y);
      ClimbReaches(s, width, height, j + 1, x0, x1, Max(y, s[j].y));
    }
  }

  /** The scan finds the greatest column height of its window. */
  lemma {:induction false} ProbeIsTop(s: Sky, width: int, height: int, k: nat, x0: int, w: int)
    requires Shape(s, width, height) && 0 < w && x0 + w <= width
    requires k + 1 < |s| && s[k].x <= x0 < s[k + 1].x
    ensures Probe(s, k, x0, w).minY == Top(s, x0, x0 + w)
  {
    VisitClimbs(s, k, x0, w, Scan(0, 0, 0));
    ClimbReaches(s, width, height, k, x0, x0 + w, 0);
    var y := Probe(s, k, x0, w).minY;
    HeightBounds(s, width, height, x0);
    assert HeightAt(s, x0) <= y;
    TopUnique(s, x0, x0 + w, y);
  }

  /**
    A round over the columns from p up to q adds the exact area of those inside the window that ends
    at x1, when every column from x0 up to p was counted once.
   */
  lemma RoundExact(a: Scan, y: int, x0: int, x1: int, p: int, q: int, below: int)
    requires p < x1
    requires a.visited == p - x0 && a.waste == (p - x0) * a.minY - below
    ensures var r := Round(a, y, q - p, q - p, x1 - x0);
            var b := Min(q, x1);
            && r.waste == (b - x0) * r.minY - (below + (b - p) * y)
            && (b == q ==> r.visited == b - x0)
  {
  }

  lemma ExactStep(s: Sky, width: int, height: int, j: nat, x0: int, w: int, a: Scan)
    requires Shape(s, width, height) && 0 <= x0 && 0 < w
    requires j + 1 < |s| && x0 <= s[j].x < x0 + w
    requires a.visited == s[j].x - x0 && a.waste == Gap(s, x0, s[j].x, a.minY)
    ensures var r := VisitStep(s, j, x0, w, a);
            var b := Min(s[j + 1].x, x0 + w);
            && r.waste == Gap(s, x0, b, r.minY)
            && (b == s[j + 1].x ==> r.visited == b - x0)
  {
    var b := Min(s[j + 1].x, x0 + w);
    SegmentFlat(s, width, height, j, s[j].x, b);
    SumFlat(s, x0, s[j].x, b, s[j].y);
    RoundExact(a, s[j].y, x0, x0 + w, s[j].x, s[j + 1].x, ColumnSum(s, x0, s[j].x));
  }

  /**
    From its second point on, a scan that has counted every column so far once keeps doing so, and
    ends with the exact area between the skyline and the height it returns.
   */
  lemma {:induction false} VisitExact(s: Sky, width: int, height: int, j: nat, x0: int, w: int, a: Scan)
    requires Shape(s, width, height) && 0 <= x0 && 0 < w && x0 + w <= width
    requires j < |s| && x0 <= s[j].x
    requires a.waste == Gap(s, x0, Min(s[j].x, x0 + w), a.minY)
    requires s[j].x < x0 + w ==> a.visited == s[j].x - x0
    ensures var r := Visit(s, j, x0, w, a); r.waste == Gap(s, x0, x0 + w, r.minY)
    decreases |s| - j
  {
    if s[j].x < x0 + w {
      ExactStep(s, width, height, j, x0, w, a);
      VisitExact(s, width, height, j + 1, x0, w, VisitStep(s, j, x0, w, a));
    }
  }

  /** The first point starts the window, or stands above 0, or alone covers the window. */
  ghost predicate StartsClean(s: Sky, k: nat, x0: int, w: int)
    requires k + 1 < |s|
  {
    s[k].x == x0 || s[k].y > 0 || x0 + w <= s[k + 1].x
  }

  /** A clean first round counts its columns once. */
  lemma CleanFirstRound(s: Sky, width: int, height: int, k: nat, x0: int, w: int)
    requires Shape(s, width, height) && 0 < w && x0 + w <= width
    requires k + 1 < |s| && s[k].x <= x0 < s[k + 1].x
    requires StartsClean(s, k, x0, w)
    ensures var r := VisitStep(s, k, x0, w, Scan(0, 0, 0));
            && r.waste == 0 && r.minY == s[k].y
            && (s[k + 1].x < x0 + w ==> r.visited == s[k + 1].x - x0)
  {
  }

  /** From a clean start, the reported waste is exactly the area under the window. */
  lemma ProbeExact(s: Sky, width: int, height: int, k: nat, x0: int, w: int)
    requires Shape(s, width, height) && 0 < w && x0 + w <= width
    requires k + 1 < |s| && s[k].x <= x0 < s[k + 1].x
    requires StartsClean(s, k, x0, w)
    ensures Probe(s, k, x0, w).waste == Gap(s, x0, x0 + w, Probe(s, k, x0, w).minY)
  {
    var b := Min(s[k + 1].x, x0 + w);
    SegmentFlat(s, width, height, k, x0, b);
    SumFlat(s, x0, x0, b, s[k].y);
    CleanFirstRound(s, width, height, k, x0, w);
    var a := VisitStep(s, k, x0, w, Scan(0, 0, 0));
    assert a.waste == Gap(s, x0, b, a.minY);
    VisitExact(s, width, height, k + 1, x0, w, a);
  }

  // ----- A scan that does not start clean ----------------------------------------------------------

  /** A round in mid-window, when d columns too many have been counted and the waste is too large by e. */
  lemma RoundOver(a: Scan, y: int, x0: int, x1: int, p: int, q: int, below: int, d: int, e: int)
    requires p < q < x1 && a.visited == p - x0 + d
    requires a.waste == a.visited * a.minY - below + e
    ensures var r := Round(a, y, q - p, q - p, x1 - x0);
            var exact := r.visited * r.minY - (below + (q - p) * y);
            if y <= a.minY && q > x1 - d then
              r.visited == x1 - x0 && r.waste == exact + e + (q - (x1 - d)) * y
            else
              r.visited == q - x0 + d && r.waste == exact + e
  {
    var n := q - p;
    if y > a.minY {
      RaisedRound(a.visited, a.minY, y, n, below, e);
    } else if q > x1 - d {
      UnderRound(a.visited, a.minY, y, n, x1 - x0 - a.visited, q - (x1 - d), below, e);
    } else {
      UnderRound(a.visited, a.minY, y, n, n, 0, below, e);
    }
  }

  lemma RaisedRound(visited: int, m: int, y: int, n: int, below: int, e: int)
    ensures visited * m - below + e + visited * (y - m) == (visited + n) * y - (below + n * y) + e
  {
  }

  /** Of n columns only `under` are counted, and over of them are left out. */
  lemma UnderRound(visited: int, m: int, y: int, n: int, under: int, over: int, below: int, e: int)
    requires n == under + over
    ensures visited * m - below + e + under * (m - y) == (visited + under) * m - (below + n * y) + e + over * y
  {
    assert under * (m - y) == under * m - under * y;
    assert n * y == under * y + over * y;
    assert (visited + under) * m == visited * m + under * m;
  }

  /** When such a round is the last one, each column too many adds the height of its point. */
  lemma LastRoundOver(a: Scan, y: int, x0: int, x1: int, p: int, q: int, below: int, d: int, e: int)
    requires p < x1 <= q && 0 < d && a.visited == p - x0 + d
    requires a.waste == a.visited * a.minY - below + e
    ensures var r := Round(a, y, q - p, q - p, x1 - x0);
            r.waste == (x1 - x0) * r.minY - (below + (x1 - p) * y) + e + d * y
  {
    if y > a.minY {
      RaisedRound(a.visited, a.minY, y, x1 - p, below, e);
      assert (a.visited + (x1 - p)) * y == (x1 - x0) * y + d * y;
    } else {
      UnderRound(a.visited, a.minY, y, x1 - p, x1 - x0 - a.visited, d, below, e);
    }
  }

  /** What d columns counted too many add to the waste from point j on, where m is the height found so far. */
  ghost function Surplus(s: Sky, width: int, height: int, j: nat, x1: int, m: int, d: int): int
    requires Shape(s, width, height) && j + 1 < |s| && x1 <= width
    decreases |s| - j
  {
    if s[j + 1].x >= x1 then
      d * s[j].y
    else if s[j].y <= m && s[j + 1].x > x1 - d then
      (s[j + 1].x - (x1 - d)) * s[j].y + Surplus(s, width, height, j + 1, x1, m, x1 - s[j + 1].x)
    else
      Surplus(s, width, height, j + 1, x1, Max(m, s[j].y), d)
  }

  lemma {:induction false} VisitOver(s: Sky, width: int, height: int, j: nat, x0: int, w: int,
                                     a: Scan, d: int, e: int)
    requires Shape(s, width, height) && 0 <= x0 && 0 < w && x0 + w <= width
    requires j + 1 < |s| && x0 <= s[j].x < x0 + w && 0 < d
    requires a.visited == s[j].x - x0 + d
    requires a.waste == a.visited * a.minY - ColumnSum(s, x0, s[j].x) + e
    ensures var r := Visit(s, j, x0, w, a);
            r.waste == Gap(s, x0, x0 + w, r.minY) + e + Surplus(s, width, height, j, x0 + w, a.minY, d)
    decreases |s| - j
  {
    var p, q, x1 := s[j].x, s[j + 1].x, x0 + w;
    SegmentFlat(s, width, height, j, p, Min(q, x1));
    SumFlat(s, x0, p, Min(q, x1), s[j].y);
    var r := VisitStep(s, j, x0, w, a);
    if q < x1 {
      RoundOver(a, s[j].y, x0, x1, p, q, ColumnSum(s, x0, p), d, e);
      if s[j].y <= a.minY && q > x1 - d {
        VisitOver(s, width, height, j + 1, x0, w, r, x1 - q, e + (q - (x1 - d)) * s[j].y);
      } else {
        VisitOver(s, width, height, j + 1, x0, w, r, d, e);
      }
    } else {
      LastRoundOver(a, s[j].y, x0, x1, p, q, ColumnSum(s, x0, p), d, e);
      assert Visit(s, j, x0, w, a) == r;
    }
  }

  /** Point j ends in the last d columns of the window, and stands above 0 but not above all points from k on. */
  ghost predicate Dip(s: Sky, k: nat, j: nat, x1: int, d: int)
    requires j + 1 < |s|
  {
    && x1 - d < s[j + 1].x < x1
    && 0 < s[j].y
    && exists i :: k <= i < j && s[j].y <= s[i].y
  }

  ghost predicate NoDip(s: Sky, k: nat, from: nat, x1: int, d: int) {
    forall j :: from <= j < |s| - 1 ==> !Dip(s, k, j, x1, d)
  }

  /** m is the greatest of 0 and the heights of the points from k up to j. */
  ghost predicate Highest(s: Sky, k: nat, j: nat, m: int)
    requires j <= |s|
  {
    && 0 <= m
    && (forall i :: k <= i < j ==> s[i].y <= m)
    && (m == 0 || exists i :: k <= i < j && s[i].y == m)
  }

  lemma Positive(a: int, y: int)
    requires 0 < a && 0 <= y
    ensures 0 <= a * y && (a * y == 0 <==> y == 0)
  {
  }

  lemma DipAt(s: Sky, k: nat, j: nat, x1: int, d: int, m: int)
    requires k <= j && j + 1 < |s| && Highest(s, k, j, m)
    ensures Dip(s, k, j, x1, d) <==> x1 - d < s[j + 1].x < x1 && 0 < s[j].y <= m
    ensures Highest(s, k, j + 1, Max(m, s[j].y))
  {
    if s[j].y > m {
      assert s[j].y == Max(m, s[j].y);
    } else if m > 0 {
      var i :| k <= i < j && s[i].y == m;
      assert s[i].y == Max(m, s[j].y);
    }
  }

  /** Nothing is added exactly if the last column is at 0 and there is no dip; d0 is the surplus at the start. */
  lemma {:induction false} SurplusZeroIff(s: Sky, width: int, height: int, k: nat, j: nat,
                                          x1: int, m: int, d: int, d0: int)
    requires Shape(s, width, height) && k <= j && j + 1 < |s| && s[j].x < x1 <= width && 0 < d
    requires Highest(s, k, j, m) && (d == d0 || (x1 - d <= s[j].x && x1 - d0 <= s[j].x))
    ensures 0 <= Surplus(s, width, height, j, x1, m, d)
    ensures Surplus(s, width, height, j, x1, m, d) == 0
            <==> HeightAt(s, x1 - 1) == 0 && NoDip(s, k, j, x1, d0)
    decreases |s| - j
  {
    var q := s[j + 1].x;
    DipAt(s, k, j, x1, d0, m);
    if q >= x1 {
      HeightIs(s, width, height, j, x1 - 1);
      Positive(d, s[j].y);
      NoDipPast(s, width, height, k, j, x1, d0);
    } else if s[j].y <= m && q > x1 - d {
      Positive(q - (x1 - d), s[j].y);
      SurplusZeroIff(s, width, height, k, j + 1, x1, m, x1 - q, d0);
    } else {
      SurplusZeroIff(s, width, height, k, j + 1, x1, Max(m, s[j].y), d, d0);
    }
  }

  lemma NoDipPast(s: Sky, width: int, height: int, k: nat, j: nat, x1: int, d: int)
    requires Shape(s, width, height) && j + 1 < |s| && s[j + 1].x >= x1
    ensures NoDip(s, k, j, x1, d)
  {
  }

  /** How many columns an unclean first round counts too many. */
  function Counted(s: Sky, k: nat, x0: int, w: int): int
    requires k + 1 < |s|
  {
    Min(x0 - s[k].x, x0 + w - s[k + 1].x)
  }

  lemma UncleanFirstRound(s: Sky, width: int, height: int, k: nat, x0: int, w: int)
    requires Shape(s, width, height) && 0 < w && x0 + w <= width
    requires k + 1 < |s| && s[k].x <= x0 < s[k + 1].x
    requires !StartsClean(s, k, x0, w)
    ensures var r := VisitStep(s, k, x0, w, Scan(0, 0, 0));
            && r.waste == 0 && r.minY == 0 && 0 < Counted(s, k, x0, w)
            && r.visited == s[k + 1].x - x0 + Counted(s, k, x0, w)
  {
  }

  /**
    The reported waste is never too small. It is exact if and only if the scan starts clean, or the last
    column is at 0 and no point with a dip counts the columns once more.
   */
  lemma ProbeExactIff(s: Sky, width: int, height: int, k: nat, x0: int, w: int)
    requires Shape(s, width, height) && 0 < w && x0 + w <= width
    requires k + 1 < |s| && s[k].x <= x0 < s[k + 1].x
    ensures var r := Probe(s, k, x0, w);
            && r.waste >= Gap(s, x0, x0 + w, r.minY)
            && (r.waste == Gap(s, x0, x0 + w, r.minY) <==>
                  || StartsClean(s, k, x0, w)
                  || (HeightAt(s, x0 + w - 1) == 0 && NoDip(s, k, k + 1, x0 + w, Counted(s, k, x0, w))))
  {
    if StartsClean(s, k, x0, w) {
      ProbeExact(s, width, height, k, x0, w);
    } else {
      var d := Counted(s, k, x0, w);
      SegmentFlat(s, width, height, k, x0, s[k + 1].x);
      SumFlat(s, x0, x0, s[k + 1].x, 0);
      UncleanFirstRound(s, width, height, k, x0, w);
      VisitOver(s, width, height, k + 1, x0, w, VisitStep(s, k, x0, w, Scan(0, 0, 0)), d, 0);
      SurplusZeroIff(s, width, height, k, k + 1, x0 + w, 0, d, d);
    }
  }
}
