/** The splice as a change of the height function. */
module Splicing {
  import opened Skyline
  import opened Packing

  /** A rectangle of width w may be spliced in at (x, top) over node k. */
  ghost predicate Spliceable(s: Sky, width: int, height: int, k: nat, x: int, w: int, top: int) {
    && Shape(s, width, height)
    && k + 1 < |s| && s[k].x <= x < s[k + 1].x
    && 0 < w && x + w <= width && 0 <= top <= height
  }

  lemma {:induction false} CutEndHolds(s: Sky, i: nat, e: int)
    requires i < |s|
    ensures var m := CutEnd(s, i, e);
            (m + 1 < |s| ==> e < s[m + 1].x) && (i < m ==> s[m].x <= e)
    decreases |s| - i
  {
    if i + 1 < |s| && s[i + 1].x <= e {
      CutEndHolds(s, i + 1, e);
    }
  }

  /** The node that is kept last from the right part starts inside the segment it belonged to. */
  lemma {:induction false} CutFacts(s: Sky, width: int, height: int, k: nat, x: int, w: int, top: int)
    requires Spliceable(s, width, height, k, x, w, top)
    ensures var i := CutStart(s, k, x);
            var m := CutEnd(s, i, x + w);
            var e := RaisedEnd(s, k, x, w);
            && i <= m < |s|
            && (0 < i ==> s[i - 1].x < x)
            && x <= s[i].x
            && Max(s[m].x, x + w) == e
            && s[m].x <= e <= width
            && (m + 1 < |s| ==> e < s[m + 1].x)
            && (m + 1 == |s| ==> e == width)
  {
    var i := CutStart(s, k, x);
    var m := CutEnd(s, i, x + w);
    CutEndHolds(s, i, x + w);
    if i < m {
      assert s[i].x < s[m].x <= x + w;
      assert s[i + 1].x <= s[m].x;
    }
  }

  /** r keeps the first i points of s, then has a new point, then point m moved to e, then the rest. */
  ghost predicate Joined(r: Sky, s: Sky, i: nat, m: nat, pt: Pt, e: int) {
    && i <= m < |s|
    && |r| == i + 1 + |s| - m
    && (forall j :: 0 <= j < i ==> r[j] == s[j])
    && r[i] == pt
    && r[i + 1] == Pt(e, s[m].y)
    && (forall j :: i + 2 <= j < |r| ==> r[j] == s[j - (i + 1) + m])
  }

  lemma {:induction false} TrimIs(s: Sky, i: nat, e: int)
    requires i < |s|
    ensures var m := CutEnd(s, i, e); Trim(s[i..], e) == [Pt(Max(s[m].x, e), s[m].y)] + s[m + 1..]
    decreases |s| - i
  {
    if i + 1 < |s| && s[i + 1].x <= e {
      assert s[i..][1..] == s[i + 1..];
      TrimIs(s, i + 1, e);
    }
  }

  lemma {:induction false} SplicePrefix(s: Sky, d: nat, k: nat, x: int, w: int, top: int)
    requires d <= k && k + 1 < |s|
    ensures Splice(s[d..], k - d, x, w, top) == s[d..k] + Splice(s[k..], 0, x, w, top)
    decreases k - d
  {
    if d < k {
      SplicePrefix(s, d + 1, k, x, w, top);
      assert s[d..][1..] == s[d + 1..];
      assert s[d..k] == [s[d]] + s[d + 1..k];
    }
  }

  lemma {:induction false} SpliceHead(s: Sky, k: nat, x: int, w: int, top: int)
    requires k + 1 < |s|
    ensures var i := CutStart(s, k, x);
            Splice(s, k, x, w, top) == s[..k] + (s[k..i] + [Pt(x, top)] + Trim(s[i..], x + w))
  {
    SplicePrefix(s, 0, k, x, w, top);
    assert s[0..] == s && s[0..k] == s[..k];
    assert s[k..][1..] == s[k + 1..];
  }

  lemma Regroup(s: Sky, k: nat, i: nat, a: Sky, b: Sky, c: Sky)
    requires k <= i <= |s|
    ensures s[..k] + (s[k..i] + a + (b + c)) == s[..i] + (a + b) + c
  {
  }

  /** The splice by positions: the first i nodes, the new one, node m trimmed, the nodes after m. */
  lemma {:induction false} SpliceIs(s: Sky, k: nat, x: int, w: int, top: int)
    requires k + 1 < |s|
    ensures var i := CutStart(s, k, x);
            var m := CutEnd(s, i, x + w);
            Splice(s, k, x, w, top)
            == s[..i] + ([Pt(x, top)] + [Pt(Max(s[m].x, x + w), s[m].y)]) + s[m + 1..]
  {
    var i := CutStart(s, k, x);
    var m := CutEnd(s, i, x + w);
    var a, b, c := [Pt(x, top)], [Pt(Max(s[m].x, x + w), s[m].y)], s[m + 1..];
    calc {
      Splice(s, k, x, w, top);
      { SpliceHead(s, k, x, w, top); }
      s[..k] + (s[k..i] + a + Trim(s[i..], x + w));
      { TrimIs(s, i, x + w); }
      s[..k] + (s[k..i] + a + (b + c));
      { Regroup(s, k, i, a, b, c); }
      s[..i] + (a + b) + c;
    }
  }

  lemma JoinedBy(s: Sky, i: nat, m: nat, pt: Pt, e: int, r: Sky)
    requires i <= m < |s|
    requires r == s[..i] + ([pt] + [Pt(e, s[m].y)]) + s[m + 1..]
    ensures Joined(r, s, i, m, pt, e)
  {
  }

  lemma {:induction false} SpliceJoins(s: Sky, width: int, height: int, k: nat, x: int, w: int, top: int)
    requires Spliceable(s, width, height, k, x, w, top)
    ensures var i := CutStart(s, k, x);
            Joined(Splice(s, k, x, w, top), s, i, CutEnd(s, i, x + w), Pt(x, top), RaisedEnd(s, k, x, w))
  {
    CutFacts(s, width, height, k, x, w, top);
    SpliceIs(s, k, x, w, top);
    var i := CutStart(s, k, x);
    JoinedBy(s, i, CutEnd(s, i, x + w), Pt(x, top), RaisedEnd(s, k, x, w), Splice(s, k, x, w, top));
  }

  lemma JoinedIncreasing(s: Sky, i: nat, m: nat, pt: Pt, e: int, r: Sky, a: nat, b: nat)
    requires Joined(r, s, i, m, pt, e) && a < b < |r|
    requires forall j, l :: 0 <= j < l < |s| ==> s[j].x < s[l].x
    requires 0 < i ==> s[i - 1].x < pt.x
    requires pt.x < e && (m + 1 < |s| ==> e < s[m + 1].x)
    ensures r[a].x < r[b].x
  {
  }

  lemma JoinedShape(s: Sky, width: int, height: int, i: nat, m: nat, pt: Pt, e: int, r: Sky)
    requires Shape(s, width, height) && Joined(r, s, i, m, pt, e)
    requires if 0 < i then s[i - 1].x < pt.x else pt.x == 0
    requires 0 <= pt.y <= height
    requires pt.x < e <= width
    requires if m + 1 < |s| then e < s[m + 1].x else e == width
    ensures Shape(r, width, height)
  {
    forall a, b | 0 <= a < b < |r| ensures r[a].x < r[b].x {
      JoinedIncreasing(s, i, m, pt, e, r, a, b);
    }
    assert m + 1 < |s| ==> r[|r| - 1] == s[|s| - 1];
  }

  /** The splice keeps a well-formed skyline, and accounts for every node it adds or removes. */
  lemma {:induction false} SpliceShape(s: Sky, width: int, height: int, k: nat, x: int, w: int, top: int)
    requires Spliceable(s, width, height, k, x, w, top)
    ensures Shape(Splice(s, k, x, w, top), width, height)
    ensures |Splice(s, k, x, w, top)| + Freed(s, k, x, w) == |s| + 1
  {
    CutFacts(s, width, height, k, x, w, top);
    SpliceJoins(s, width, height, k, x, w, top);
    var i := CutStart(s, k, x);
    JoinedShape(s, width, height, i, CutEnd(s, i, x + w), Pt(x, top), RaisedEnd(s, k, x, w),
                Splice(s, k, x, w, top));
  }

  /** The point under column c, when c is not on the raised stretch. */
  lemma JoinedFind(s: Sky, width: int, height: int, i: nat, m: nat, pt: Pt, e: int, r: Sky, c: int) returns (j: nat)
    requires Shape(s, width, height) && Joined(r, s, i, m, pt, e)
    requires 0 < i ==> s[i - 1].x < pt.x
    requires pt.x <= s[i].x && s[m].x <= e
    requires 0 <= c < width && !(pt.x <= c < e)
    ensures j + 1 < |r| && r[j].x <= c < r[j + 1].x && r[j].y == HeightAt(s, c)
  {
    var l := Find(s, c, |s|);
    HeightBounds(s, width, height, c);
    if c < pt.x {
      assert l < i;
      assert r[l + 1].x == if l + 1 < i then s[l + 1].x else pt.x;
      j := l;
    } else {
      assert m <= l;
      assert r[l + 1 - m + i + 1] == s[l + 1];
      j := l - m + i + 1;
    }
  }

  lemma JoinedHeights(s: Sky, width: int, height: int, i: nat, m: nat, pt: Pt, e: int, r: Sky, c: int)
    requires Shape(s, width, height) && Joined(r, s, i, m, pt, e) && Shape(r, width, height)
    requires 0 < i ==> s[i - 1].x < pt.x
    requires pt.x <= s[i].x && s[m].x <= e
    requires 0 <= c < width
    ensures HeightAt(r, c) == if pt.x <= c < e then pt.y else HeightAt(s, c)
  {
    if pt.x <= c < e {
      HeightIs(r, width, height, i, c);
    } else {
      var j := JoinedFind(s, width, height, i, m, pt, e, r, c);
      HeightIs(r, width, height, j, c);
    }
  }

  /**
    The splice refines a pointwise update: the height function becomes top from x up to the raised
    end, and is unchanged on every other column.
   */
  lemma {:induction false} SpliceHeights(s: Sky, width: int, height: int, k: nat, x: int, w: int, top: int, c: int)
    requires Spliceable(s, width, height, k, x, w, top) && 0 <= c < width
    ensures Shape(Splice(s, k, x, w, top), width, height)
    ensures HeightAt(Splice(s, k, x, w, top), c)
         == if x <= c < RaisedEnd(s, k, x, w) then top else HeightAt(s, c)
  {
    SpliceShape(s, width, height, k, x, w, top);
    SpliceJoins(s, width, height, k, x, w, top);
    CutFacts(s, width, height, k, x, w, top);
    var i := CutStart(s, k, x);
    JoinedHeights(s, width, height, i, CutEnd(s, i, x + w), Pt(x, top), RaisedEnd(s, k, x, w),
                  Splice(s, k, x, w, top), c);
  }

  /** The raised part beyond the rectangle is level with its left edge. */
  lemma RaisedPast(s: Sky, width: int, height: int, k: nat, x: int, w: int, top: int, c: int)
    requires Spliceable(s, width, height, k, x, w, top)
    requires x + w <= c < RaisedEnd(s, k, x, w)
    ensures HeightAt(s, c) == HeightAt(s, x)
  {
    HeightIs(s, width, height, k, c);
    HeightIs(s, width, height, k, x);
  }

  /** r has height top from x up to e, and the heights of s on every other column. */
  ghost predicate Raised(s: Sky, r: Sky, width: int, x: int, e: int, top: int) {
    && |s| > 0 && |r| > 0 && s[0].x == 0 && r[0].x == 0
    && (forall c :: 0 <= c < width ==> HeightAt(r, c) == if x <= c < e then top else HeightAt(s, c))
  }

  /** The splice in one statement: a well-formed skyline that differs by one raised stretch. */
  lemma {:induction false} SpliceRaises(s: Sky, width: int, height: int, k: nat, x: int, w: int, top: int)
    requires Spliceable(s, width, height, k, x, w, top)
    ensures Shape(Splice(s, k, x, w, top), width, height)
    ensures Raised(s, Splice(s, k, x, w, top), width, x, RaisedEnd(s, k, x, w), top)
    ensures 0 <= x && x + w <= RaisedEnd(s, k, x, w) <= width
  {
    SpliceShape(s, width, height, k, x, w, top);
    forall c | 0 <= c < width
      ensures HeightAt(Splice(s, k, x, w, top), c)
           == if x <= c < RaisedEnd(s, k, x, w) then top else HeightAt(s, c)
    {
      SpliceHeights(s, width, height, k, x, w, top, c);
    }
    CutFacts(s, width, height, k, x, w, top);
    assert k > 0 ==> s[0].x < s[k].x;
  }

  /** The sum of the column heights grows by the area between the old skyline and the new top. */
  lemma {:induction false} RaisedSum(s: Sky, r: Sky, width: int, x: int, e: int, top: int)
    requires Raised(s, r, width, x, e, top) && 0 <= x <= e <= width
    ensures ColumnSum(r, 0, width) == ColumnSum(s, 0, width) + Gap(s, x, e, top)
  {
    SumSplit(r, 0, x, width);
    SumSplit(r, x, e, width);
    SumSplit(s, 0, x, width);
    SumSplit(s, x, e, width);
    SumAgree(s, r, 0, x);
    SumAgree(s, r, e, width);
    SumFlat(r, x, x, e, top);
  }
}
