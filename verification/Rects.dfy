/** stbrp_pack_rects: the caller's array of rectangles is sorted, packed and put back in order. */
module Rects {
  import opened Skyline
  import opened Packing
  import opened Choosing
  import opened Runs
  import opened RectPack

  datatype Rect = Rect(id: int, w: nat, h: nat, x: int, y: int, wasPacked: int)

  const MAXVAL := 0x7fff_ffff

  // ----- Sorting -----------------------------------------------------------------------------------

  datatype Order = ByHeight | ByOriginal

  /** rect_height_compare and rect_original_order */
  function Compare(order: Order, p: Rect, q: Rect): int {
    match order
    case ByHeight =>
      if p.h > q.h then -1
      else if p.h < q.h then 1
      else if p.w > q.w then -1 else if p.w < q.w then 1 else 0
    case ByOriginal =>
      if p.wasPacked < q.wasPacked then -1 else if p.wasPacked > q.wasPacked then 1 else 0
  }

  ghost predicate InOrder(order: Order, s: seq<Rect>) {
    forall i, j :: 0 <= i < j < |s| ==> Compare(order, s[i], s[j]) <= 0
  }

  /** Order by falling height, then by falling width. */
  ghost predicate Falling(s: seq<Rect>) {
    forall i, j :: 0 <= i < j < |s| ==> s[i].h > s[j].h || (s[i].h == s[j].h && s[i].w >= s[j].w)
  }

  lemma FallingIs(s: seq<Rect>)
    ensures InOrder(ByHeight, s) <==> Falling(s)
  {
    if Falling(s) {
      forall i, j | 0 <= i < j < |s| ensures Compare(ByHeight, s[i], s[j]) <= 0 {
      }
    }
    if InOrder(ByHeight, s) {
      forall i, j | 0 <= i < j < |s| ensures s[i].h > s[j].h || (s[i].h == s[j].h && s[i].w >= s[j].w) {
        assert Compare(ByHeight, s[i], s[j]) <= 0;
      }
    }
  }

  /** p lists every index below n once. */
  ghost predicate Permutation(p: seq<nat>, n: nat) {
    && |p| == n
    && (forall i :: 0 <= i < n ==> p[i] < n)
    && (forall i, j :: 0 <= i < j < n ==> p[i] != p[j])
  }

  /** s is r with the element of r at p[i] moved to i. */
  ghost predicate Moved(s: seq<Rect>, r: seq<Rect>, p: seq<nat>) {
    && Permutation(p, |r|) && |s| == |r|
    && forall i :: 0 <= i < |s| ==> s[i] == r[p[i]]
  }

  /** All in order, but for the element at j, which may belong further to the left. */
  ghost predicate OrderedBut(order: Order, s: seq<Rect>, m: nat, j: nat)
    requires m <= |s|
  {
    forall a, b :: 0 <= a < b < m && b != j ==> Compare(order, s[a], s[b]) <= 0
  }

  lemma SwapStep(order: Order, s: seq<Rect>, r: seq<Rect>, p: seq<nat>, m: nat, j: nat)
    returns (s': seq<Rect>, p': seq<nat>)
    requires Moved(s, r, p) && 0 < j < m <= |s|
    requires OrderedBut(order, s, m, j)
    requires forall b :: j < b < m ==> Compare(order, s[j], s[b]) <= 0
    requires Compare(order, s[j - 1], s[j]) > 0
    ensures s' == s[j - 1 := s[j]][j := s[j - 1]]
    ensures Moved(s', r, p') && OrderedBut(order, s', m, j - 1)
    ensures forall b :: j - 1 < b < m ==> Compare(order, s'[j - 1], s'[b]) <= 0
  {
    s', p' := s[j - 1 := s[j]][j := s[j - 1]], p[j - 1 := p[j]][j := p[j - 1]];
  }

  lemma Settled(order: Order, s: seq<Rect>, m: nat, j: nat)
    requires j < m <= |s| && OrderedBut(order, s, m, j)
    requires forall b :: j < b < m ==> Compare(order, s[j], s[b]) <= 0
    requires j > 0 ==> Compare(order, s[j - 1], s[j]) <= 0
    ensures InOrder(order, s[..m])
  {
  }

  /** Element m sinks to its place among the first m + 1. */
  method Sink(a: array<Rect>, order: Order, m: nat, ghost r: seq<Rect>, ghost p: seq<nat>) returns (ghost q: seq<nat>)
    requires m < a.Length && Moved(a[..], r, p) && InOrder(order, a[..m])
    modifies a
    ensures Moved(a[..], r, q) && InOrder(order, a[..m + 1])
  {
    q := p;
    var j := m;
    assert forall i :: 0 <= i < m ==> a[..m][i] == a[..][i];
    while j > 0 && Compare(order, a[j - 1], a[j]) > 0
      invariant 0 <= j <= m
      invariant Moved(a[..], r, q)
      invariant OrderedBut(order, a[..], m + 1, j)
      invariant forall b :: j < b <= m ==> Compare(order, a[..][j], a[..][b]) <= 0
    {
      ghost var s;
      s, q := SwapStep(order, a[..], r, q, m + 1, j);
      a[j - 1], a[j] := a[j], a[j - 1];
      assert a[..] == s;
      j := j - 1;
    }
    Settled(order, a[..], m + 1, j);
    assert a[..][..m + 1] == a[..m + 1];
  }

  /** The sorting routine is not part of this model; callers see only this contract. */
  method Sort(a: array<Rect>, order: Order) returns (ghost p: seq<nat>)
    modifies a
    ensures Moved(a[..], old(a[..]), p) && InOrder(order, a[..])
  {
    ghost var r := a[..];
    p := seq(a.Length, i => i);
    for m := 0 to a.Length
      invariant Moved(a[..], r, p)
      invariant InOrder(order, a[..m])
    {
      p := Sink(a, order, m, r, p);
    }
    assert a[..a.Length] == a[..];
  }

  // ----- Packing the sorted array ------------------------------------------------------------------

  function Requests(s: seq<Rect>): seq<Request> {
    if s == [] then [] else Requests(s[..|s| - 1]) + [Request(s[|s| - 1].w, s[|s| - 1].h)]
  }

  /** The caller's part of a rectangle is kept, and so is its place in the array. */
  ghost predicate Kept(r: Rect, q: Rect) {
    q.id == r.id && q.w == r.w && q.h == r.h && q.wasPacked == r.wasPacked
  }

  ghost predicate Empty(r: Rect) {
    r.w == 0 || r.h == 0
  }

  ghost function BoxOf(r: Rect): Box {
    Box(r.x, r.y, r.w, r.h)
  }

  /** r is empty and at the origin, or stands at position `at` of the history, or was refused. */
  ghost predicate Logged(r: Rect, at: int, before: int, placed: seq<Box>) {
    if Empty(r) then
      at == -1 && r.x == 0 && r.y == 0
    else if at == -1 then
      r.x == MAXVAL && r.y == MAXVAL
    else
      0 <= before <= at < |placed| && placed[at] == BoxOf(r)
  }

  /** What a target answers to a request, and the place in its history that comes next */
  datatype Turn = Turn(answer: Placement, next: nat)

  function TurnOf(cur: Packer, r: Rect): Turn
    requires PackerOk(cur)
  {
    Turn(Serve(cur, Request(r.w, r.h)).1, |cur.placed|)
  }

  /** The turns of the rectangles of s, served one after the other */
  function Turns(p: Packer, s: seq<Rect>): seq<Turn>
    requires PackerOk(p)
  {
    seq(|s|, j requires 0 <= j < |s| => TurnOf(Run(p, Requests(s[..j])), s[j]))
  }

  /** q is r with what it is told in its turn; `at` is the place of its box in the history, if it gets one. */
  ghost predicate Told(turn: Turn, r: Rect, q: Rect, at: int) {
    if Empty(r) then
      at == -1 && q.x == 0 && q.y == 0
    else match turn.answer
      case NoRoom => at == -1 && q.x == MAXVAL && q.y == MAXVAL
      case PlacedAt(x, y) => at == turn.next && q.x == x && q.y == y
  }

  /** A rectangle that is not empty is refused exactly if no node was free or it fitted nowhere. */
  lemma RefusedIff(cur: Packer, r: Rect, q: Rect, at: int)
    requires PackerOk(cur) && Told(TurnOf(cur, r), r, q, at) && !Empty(r)
    ensures at == -1 <==> cur.free == 0 || !FitsSomewhere(cur.c, cur.sky, Rounded(r.w, cur.c.align), r.h)
    ensures at != -1 ==> Serve(cur, Request(r.w, r.h)).0.placed == cur.placed + [Box(q.x, q.y, r.w, r.h)]
  {
    PackFailsIff(cur, r.w, r.h);
    if at != -1 {
      var e := PackLands(cur, r.w, r.h);
    }
  }

  ghost predicate Rising(at: seq<int>, end: int) {
    && (forall i :: 0 <= i < |at| ==> at[i] < end)
    && (forall i, j :: 0 <= i < j < |at| && 0 <= at[i] && 0 <= at[j] ==> at[i] < at[j])
  }

  /** One rectangle: what it becomes is what Serve answers. */
  method PackOne(ctx: Context, r: Rect) returns (q: Rect, ghost at: int)
    requires ctx.Valid()
    modifies ctx`activeHead, ctx`freeHead, ctx`active, ctx`free, ctx`packer, ctx.nodes
    ensures ctx.Valid() && ctx.packer == Serve(old(ctx.packer), Request(r.w, r.h)).0
    ensures Kept(r, q)
    ensures old(ctx.packer.placed) <= ctx.packer.placed
    ensures Logged(q, at, |old(ctx.packer.placed)|, ctx.packer.placed)
    ensures Told(TurnOf(old(ctx.packer), r), r, q, at)
    ensures |ctx.packer.placed| == |old(ctx.packer.placed)| + (if at == -1 then 0 else 1)
  {
    at := -1;
    if r.w == 0 || r.h == 0 {
      q := r.(x := 0, y := 0);
    } else {
      var ok, x, y := ctx.PackRectangle(r.w, r.h);
      if ok {
        at := |old(ctx.packer.placed)|;
        q := r.(x := x, y := y);
      } else {
        q := r.(x := MAXVAL, y := MAXVAL);
      }
    }
  }

  /** An element changes, and the context does not. */
  method Put(ctx: Context, rects: array<Rect>, i: nat, q: Rect)
    requires ctx.Valid() && i < rects.Length
    modifies rects
    ensures ctx.Valid()
    ensures rects[..] == old(rects[..])[i := q]
  {
    rects[i] := q;
  }

  /** The first |done| rectangles of s as they are after packing, with their places in the history. */
  ghost predicate Log(s: seq<Rect>, done: seq<Rect>, at: seq<int>, before: nat, placed: seq<Box>) {
    && |at| == |done| <= |s| && before <= |placed|
    && Rising(at, |placed|)
    && (forall j :: 0 <= j < |done| ==> Kept(s[j], done[j]) && Logged(done[j], at[j], before, placed))
  }

  lemma LogPush(s: seq<Rect>, done: seq<Rect>, at: seq<int>, before: nat, placed: seq<Box>,
                q: Rect, k: int, placed': seq<Box>)
    requires Log(s, done, at, before, placed) && |done| < |s| && placed <= placed'
    requires Kept(s[|done|], q) && Logged(q, k, |placed|, placed') && k < |placed'|
    ensures Log(s, done + [q], at + [k], before, placed')
  {
  }

  /** Each of the first |done| rectangles has the answer that the target gave when its turn came. */
  ghost predicate AllTold(turns: seq<Turn>, s: seq<Rect>, done: seq<Rect>, at: seq<int>) {
    && |at| == |done| <= |s| == |turns|
    && forall j :: 0 <= j < |done| ==> Told(turns[j], s[j], done[j], at[j])
  }

  /** Every place in the history from `from` up to `to` belongs to a rectangle. */
  ghost predicate AllOwned(at: seq<int>, from: nat, to: nat) {
    forall k: int :: from <= k < to ==> k in at
  }

  lemma OwnedPush(at: seq<int>, from: nat, to: nat, k: int)
    requires AllOwned(at, from, to)
    ensures AllOwned(at + [k], from, to)
    ensures k == to ==> AllOwned(at + [k], from, to + 1)
  {
    forall j: int | from <= j < to ensures j in at + [k] {
      assert j in at;
    }
    if k == to {
      forall j: int | from <= j < to + 1 ensures j in at + [k] {
        assert j in at || j == (at + [k])[|at|];
      }
    }
  }

  /** The first elements are those of done, and the others still those of s. */
  ghost predicate Partly(s: seq<Rect>, now: seq<Rect>, done: seq<Rect>) {
    && |done| <= |s| == |now|
    && (forall i :: 0 <= i < |done| ==> now[i] == done[i])
    && (forall i :: |done| <= i < |s| ==> now[i] == s[i])
  }

  lemma PartlyPut(s: seq<Rect>, now: seq<Rect>, done: seq<Rect>, q: Rect)
    requires Partly(s, now, done) && |done| < |s|
    ensures Partly(s, now[|done| := q], done + [q])
  {
  }

  /** After the first |done| rounds: the target has served the first requests, and logged its answers. */
  ghost predicate Progress(p: Packer, s: seq<Rect>, done: seq<Rect>, at: seq<int>, cur: Packer) {
    && PackerOk(p) && |done| <= |s|
    && cur == Run(p, Requests(s[..|done|]))
    && p.placed <= cur.placed
    && Log(s, done, at, |p.placed|, cur.placed)
    && AllTold(Turns(p, s), s, done, at) && AllOwned(at, |p.placed|, |cur.placed|)
  }

  lemma ToldPush(turns: seq<Turn>, s: seq<Rect>, done: seq<Rect>, at: seq<int>, q: Rect, k: int)
    requires AllTold(turns, s, done, at) && |done| < |s| && Told(turns[|done|], s[|done|], q, k)
    ensures AllTold(turns, s, done + [q], at + [k])
  {
  }

  lemma {:induction false} Round(p: Packer, s: seq<Rect>, done: seq<Rect>, at: seq<int>, cur: Packer,
                                 q: Rect, k: int, next: Packer)
    requires |done| < |s| && Progress(p, s, done, at, cur)
    requires next == Run(p, Requests(s[..|done| + 1]))
    requires cur.placed <= next.placed
    requires Kept(s[|done|], q) && Logged(q, k, |cur.placed|, next.placed)
    requires Told(Turns(p, s)[|done|], s[|done|], q, k)
    requires |next.placed| == |cur.placed| + (if k == -1 then 0 else 1)
    ensures Progress(p, s, done + [q], at + [k], next)
  {
    LogPush(s, done, at, |p.placed|, cur.placed, q, k, next.placed);
    ToldPush(Turns(p, s), s, done, at, q, k);
    OwnedPush(at, |p.placed|, |cur.placed|, k);
  }

  /** The packing loop of stbrp_pack_rects. */
  method PackSorted(ctx: Context, rects: array<Rect>) returns (ghost at: seq<int>)
    requires ctx.Valid()
    modifies ctx`activeHead, ctx`freeHead, ctx`active, ctx`free, ctx`packer, ctx.nodes, rects
    ensures ctx.Valid()
    ensures Progress(old(ctx.packer), old(rects[..]), rects[..], at, ctx.packer)
  {
    ghost var p, s := ctx.packer, rects[..];
    ghost var done: seq<Rect> := [];
    at := [];
    for i := 0 to rects.Length
      invariant ctx.Valid() && |done| == i && |s| == rects.Length
      invariant Partly(s, rects[..], done) && Progress(p, s, done, at, ctx.packer)
    {
      ghost var cur, now := ctx.packer, rects[..];
      var q;
      ghost var k;
      q, k := PackOne(ctx, rects[i]);
      Put(ctx, rects, i, q);
      RunOneMore(p, s, i);
      PartlyPut(s, now, done, q);
      Round(p, s, done, at, cur, q, k, ctx.packer);
      at, done := at + [k], done + [q];
    }
    assert rects[..] == done;
  }

  lemma {:induction false} RunOneMore(p: Packer, s: seq<Rect>, i: nat)
    requires PackerOk(p) && i < |s|
    ensures Run(p, Requests(s[..i + 1])) == Serve(Run(p, Requests(s[..i])), Request(s[i].w, s[i].h)).0
    ensures Turns(p, s)[i] == TurnOf(Run(p, Requests(s[..i])), s[i])
  {
    assert s[..i + 1][..i] == s[..i];
    RunSnoc(p, Requests(s[..i]), Request(s[i].w, s[i].h));
  }

  // ----- Putting the array back in order -----------------------------------------------------------

  lemma {:induction false} RisingFromZero(f: seq<nat>, i: nat)
    requires i < |f| && forall a, b :: 0 <= a < b < |f| ==> f[a] < f[b]
    ensures i <= f[i]
  {
    if i > 0 {
      RisingFromZero(f, i - 1);
    }
  }

  /** A strictly rising sequence of n numbers below n counts from 0. */
  lemma {:induction false} RisingCounts(f: seq<nat>, i: nat)
    requires i < |f| && forall a, b :: 0 <= a < b < |f| ==> f[a] < f[b]
    requires forall a :: 0 <= a < |f| ==> f[a] < |f|
    ensures f[i] == i
    decreases |f| - i
  {
    RisingFromZero(f, i);
    if i + 1 < |f| {
      RisingCounts(f, i + 1);
    }
  }

  /** Sorting the labels back brings element i of the original order to place i. */
  lemma UnsortRestores(labelled: seq<Rect>, sorted: seq<Rect>, done: seq<Rect>, back: seq<Rect>,
                       p: seq<nat>, q: seq<nat>)
    requires forall i :: 0 <= i < |labelled| ==> labelled[i].wasPacked == i
    requires Moved(sorted, labelled, p) && |done| == |sorted|
    requires forall i :: 0 <= i < |done| ==> Kept(sorted[i], done[i])
    requires Moved(back, done, q) && InOrder(ByOriginal, back)
    ensures |q| == |labelled| && forall i :: 0 <= i < |q| ==> q[i] < |p| && p[q[i]] == i
  {
    var f: seq<nat> := seq(|q|, i requires 0 <= i < |q| => p[q[i]]);
    forall a, b | 0 <= a < b < |f| ensures f[a] < f[b] {
      assert back[a].wasPacked == f[a] && back[b].wasPacked == f[b];
      assert Compare(ByOriginal, back[a], back[b]) <= 0;
    }
    forall i | 0 <= i < |q| ensures p[q[i]] == i {
      RisingCounts(f, i);
    }
  }

  /** The array that the last loop leaves, rectangle by rectangle. */
  ghost predicate Finished(r: Rect, q: Rect, at: int, before: nat, placed: seq<Box>) {
    && q.id == r.id && q.w == r.w && q.h == r.h
    && Logged(q, at, before, placed)
    && q.wasPacked == (if Empty(q) || at >= 0 then 1 else 0)
  }

  /** The positions that rectangles hold in the history differ. */
  ghost predicate Separate(at: seq<int>) {
    forall i, j :: 0 <= i < j < |at| && at[i] >= 0 && at[j] >= 0 ==> at[i] != at[j]
  }

  lemma RestoredLog(s: seq<Rect>, labelled: seq<Rect>, sorted: seq<Rect>, done: seq<Rect>, back: seq<Rect>,
                    p: seq<nat>, q: seq<nat>, at: seq<int>, before: nat, placed: seq<Box>) returns (to: seq<int>)
    requires Labelled(s, labelled)
    requires Moved(sorted, labelled, p) && Log(sorted, done, at, before, placed) && |done| == |sorted|
    requires Moved(back, done, q) && InOrder(ByOriginal, back)
    ensures |to| == |back| == |s| && Separate(to)
    ensures forall i :: 0 <= i < |s| ==>
              && back[i].id == s[i].id && back[i].w == s[i].w && back[i].h == s[i].h
              && Logged(back[i], to[i], before, placed)
    ensures forall k :: 0 <= k < |s| ==> back[p[k]] == done[k] && to[p[k]] == at[k]
  {
    UnsortRestores(labelled, sorted, done, back, p, q);
    to := seq(|q|, i requires 0 <= i < |q| => at[q[i]]);
    forall i, j | 0 <= i < j < |to| && to[i] >= 0 && to[j] >= 0 ensures to[i] != to[j] {
      assert q[i] != q[j];
      assert to[i] == at[q[i]] && to[j] == at[q[j]];
    }
    forall i | 0 <= i < |s|
      ensures back[i].id == s[i].id && back[i].w == s[i].w && back[i].h == s[i].h
    {
      assert Kept(sorted[q[i]], done[q[i]]);
    }
    forall k | 0 <= k < |s| ensures back[p[k]] == done[k] && to[p[k]] == at[k] {
      assert p[q[p[k]]] == p[k];
    }
  }

  // ----- stbrp_pack_rects --------------------------------------------------------------------------

  ghost predicate Labelled(s: seq<Rect>, l: seq<Rect>) {
    |l| == |s| && forall i :: 0 <= i < |s| ==> l[i] == s[i].(wasPacked := i)
  }

  /** The first loop: each rectangle remembers its place. */
  method Label(rects: array<Rect>)
    modifies rects
    ensures Labelled(old(rects[..]), rects[..])
  {
    for i := 0 to rects.Length
      invariant forall j :: 0 <= j < i ==> rects[j] == old(rects[j]).(wasPacked := j)
      invariant forall j :: i <= j < rects.Length ==> rects[j] == old(rects[j])
    {
      rects[i] := rects[i].(wasPacked := i);
    }
  }

  ghost predicate Flagged(s: seq<Rect>, f: seq<Rect>) {
    && |f| == |s|
    && forall i :: 0 <= i < |s| ==>
         f[i] == s[i].(wasPacked := if s[i].x == MAXVAL && s[i].y == MAXVAL then 0 else 1)
  }

  /** The last loop: the flags and the answer. */
  method Finish(rects: array<Rect>) returns (all: bool)
    modifies rects
    ensures Flagged(old(rects[..]), rects[..])
    ensures all <==> forall i :: 0 <= i < rects.Length ==> rects[i].wasPacked == 1
  {
    all := true;
    for i := 0 to rects.Length
      invariant forall j :: 0 <= j < i ==>
                  rects[j] == old(rects[j]).(wasPacked :=
                    if old(rects[j]).x == MAXVAL && old(rects[j]).y == MAXVAL then 0 else 1)
      invariant forall j :: i <= j < rects.Length ==> rects[j] == old(rects[j])
      invariant all <==> forall j :: 0 <= j < i ==> rects[j].wasPacked == 1
    {
      rects[i] := rects[i].(wasPacked := if rects[i].x == MAXVAL && rects[i].y == MAXVAL then 0 else 1);
      if rects[i].wasPacked == 0 {
        all := false;
      }
    }
  }

  /** s in the order that p gives. */
  ghost function Arranged(s: seq<Rect>, p: seq<nat>): seq<Rect>
    requires Permutation(p, |s|)
  {
    seq(|s|, i requires 0 <= i < |s| => s[p[i]])
  }

  lemma {:induction false} SameRequests(s: seq<Rect>, r: seq<Rect>)
    requires |s| == |r| && forall i :: 0 <= i < |s| ==> s[i].w == r[i].w && s[i].h == r[i].h
    ensures Requests(s) == Requests(r)
  {
    if s != [] {
      SameRequests(s[..|s| - 1], r[..|r| - 1]);
    }
  }

  /** A placed rectangle never has the coordinates that stand for a refusal. */
  lemma PlacedIsNotMax(p: Packer, r: Rect, at: int, before: nat)
    requires PackerOk(p) && Logged(r, at, before, p.placed)
    ensures (r.x == MAXVAL && r.y == MAXVAL) <==> !Empty(r) && at == -1
    ensures at >= 0 ==> !Empty(r) && Inside(p.c, BoxOf(r))
  {
    if !Empty(r) && at != -1 {
      SafeAt(p.c, p.sky, p.placed, at);
    }
  }

  /**
    What one call reports: the rectangles were served in the order p, by falling height, and stand in
    the caller's order again, each with its answer; `at` gives the places of their boxes in the history.
   */
  ghost predicate Reported(before: Packer, after: Packer, s: seq<Rect>, fin: seq<Rect>, p: seq<nat>, at: seq<int>) {
    && PackerOk(before) && Permutation(p, |s|) && |fin| == |at| == |s|
    && Falling(Arranged(s, p))
    && after == Run(before, Requests(Arranged(s, p)))
    && before.placed <= after.placed
    && Separate(at) && AllOwned(at, |before.placed|, |after.placed|)
    && (forall i :: 0 <= i < |s| ==> Finished(s[i], fin[i], at[i], |before.placed|, after.placed))
    && (forall k :: 0 <= k < |s| ==> Told(Turns(before, Arranged(s, p))[k], s[p[k]], fin[p[k]], at[p[k]]))
  }

  lemma {:induction false} SameOrder(s: seq<Rect>, labelled: seq<Rect>, sorted: seq<Rect>, p: seq<nat>)
    requires Labelled(s, labelled) && Moved(sorted, labelled, p) && InOrder(ByHeight, sorted)
    ensures Falling(Arranged(s, p)) && Requests(Arranged(s, p)) == Requests(sorted[..|s|])
  {
    FallingIs(sorted);
    SameRequests(sorted, Arranged(s, p));
    assert sorted[..|sorted|] == sorted;
  }

  lemma {:induction false} ServedByHeight(before: Packer, after: Packer, s: seq<Rect>, labelled: seq<Rect>,
                                          sorted: seq<Rect>, done: seq<Rect>, p: seq<nat>, slots: seq<int>)
    requires Labelled(s, labelled) && Moved(sorted, labelled, p) && InOrder(ByHeight, sorted)
    requires Progress(before, sorted, done, slots, after) && |done| == |s|
    ensures Falling(Arranged(s, p))
    ensures after == Run(before, Requests(Arranged(s, p)))
  {
    SameOrder(s, labelled, sorted, p);
  }

  /** Each answer is that of the target at the rectangle's turn in the order p. */
  lemma {:induction false} ToldInTurn(before: Packer, s: seq<Rect>, labelled: seq<Rect>, sorted: seq<Rect>,
                                          done: seq<Rect>, p: seq<nat>, slots: seq<int>, k: nat)
    requires PackerOk(before) && Labelled(s, labelled) && Moved(sorted, labelled, p)
    requires AllTold(Turns(before, sorted), sorted, done, slots) && |done| == |s| && k < |s|
    ensures Told(Turns(before, Arranged(s, p))[k], s[p[k]], done[k], slots[k])
  {
    SameRequests(sorted[..k], Arranged(s, p)[..k]);
  }

  lemma AllPlacesOwned(slots: seq<int>, at: seq<int>, p: seq<nat>, from: nat, to: nat)
    requires Permutation(p, |slots|) && |at| == |slots| && AllOwned(slots, from, to)
    requires forall k :: 0 <= k < |slots| ==> at[p[k]] == slots[k]
    ensures AllOwned(at, from, to)
  {
    forall j: int | from <= j < to ensures j in at {
      assert j in slots;
      var k :| 0 <= k < |slots| && slots[k] == j;
      assert at[p[k]] == j;
    }
  }

  lemma AllReported(before: Packer, after: Packer, s: seq<Rect>, labelled: seq<Rect>, sorted: seq<Rect>,
                    done: seq<Rect>, back: seq<Rect>, fin: seq<Rect>, p: seq<nat>, q: seq<nat>, slots: seq<int>)
    returns (at: seq<int>)
    requires PackerOk(after)
    requires Labelled(s, labelled) && Moved(sorted, labelled, p) && InOrder(ByHeight, sorted)
    requires Progress(before, sorted, done, slots, after) && |done| == |s|
    requires Moved(back, done, q) && InOrder(ByOriginal, back) && Flagged(back, fin)
    ensures Reported(before, after, s, fin, p, at)
  {
    at := RestoredLog(s, labelled, sorted, done, back, p, q, slots, |before.placed|, after.placed);
    ServedByHeight(before, after, s, labelled, sorted, done, p, slots);
    forall i | 0 <= i < |s| ensures Finished(s[i], fin[i], at[i], |before.placed|, after.placed) {
      PlacedIsNotMax(after, back[i], at[i], |before.placed|);
    }
    AllPlacesOwned(slots, at, p, |before.placed|, |after.placed|);
    forall k | 0 <= k < |s|
      ensures Told(Turns(before, Arranged(s, p))[k], s[p[k]], fin[p[k]], at[p[k]])
    {
      ToldInTurn(before, s, labelled, sorted, done, p, slots, k);
    }
  }

  /** Before packing: labels, then the order by height. */
  method Prepare(ghost ctx: Context, rects: array<Rect>) returns (ghost labelled: seq<Rect>, ghost p: seq<nat>)
    requires ctx.Valid()
    modifies rects
    ensures ctx.Valid()
    ensures Labelled(old(rects[..]), labelled)
    ensures Moved(rects[..], labelled, p) && InOrder(ByHeight, rects[..])
  {
    Label(rects);
    labelled := rects[..];
    p := Sort(rects, ByHeight);
  }

  /** After packing: the original order, then the flags. */
  method Restore(ghost ctx: Context, rects: array<Rect>) returns (all: bool, ghost back: seq<Rect>, ghost q: seq<nat>)
    requires ctx.Valid()
    modifies rects
    ensures ctx.Valid()
    ensures Moved(back, old(rects[..]), q) && InOrder(ByOriginal, back) && Flagged(back, rects[..])
    ensures all <==> forall i :: 0 <= i < rects.Length ==> rects[i].wasPacked == 1
  {
    q := Sort(rects, ByOriginal);
    back := rects[..];
    all := Finish(rects);
  }

  /** The three parts of stbrp_pack_rects, and what the array is between them */
  method PackInOrder(ctx: Context, rects: array<Rect>)
    returns (all: bool, ghost labelled: seq<Rect>, ghost sorted: seq<Rect>, ghost done: seq<Rect>,
             ghost back: seq<Rect>, ghost p: seq<nat>, ghost q: seq<nat>, ghost slots: seq<int>)
    requires ctx.Valid()
    modifies ctx`activeHead, ctx`freeHead, ctx`active, ctx`free, ctx`packer, ctx.nodes, rects
    ensures ctx.Valid() && Labelled(old(rects[..]), labelled)
    ensures Moved(sorted, labelled, p) && InOrder(ByHeight, sorted)
    ensures Progress(old(ctx.packer), sorted, done, slots, ctx.packer) && |done| == |sorted|
    ensures Moved(back, done, q) && InOrder(ByOriginal, back) && Flagged(back, rects[..])
    ensures all <==> forall i :: 0 <= i < rects.Length ==> rects[i].wasPacked == 1
  {
    labelled, p := Prepare(ctx, rects);
    sorted := rects[..];
    slots := PackSorted(ctx, rects);
    done := rects[..];
    all, back, q := Restore(ctx, rects);
  }

  /** stbrp_pack_rects */
  method PackRects(ctx: Context, rects: array<Rect>) returns (all: bool, ghost p: seq<nat>, ghost at: seq<int>)
    requires ctx.Valid()
    modifies ctx`activeHead, ctx`freeHead, ctx`active, ctx`free, ctx`packer, ctx.nodes, rects
    ensures ctx.Valid()
    ensures Reported(old(ctx.packer), ctx.packer, old(rects[..]), rects[..], p, at)
    ensures all <==> forall i :: 0 <= i < rects.Length ==> rects[i].wasPacked == 1
  {
    ghost var s, before := rects[..], ctx.packer;
    ghost var labelled, sorted, done, back, q, slots;
    all, labelled, sorted, done, back, p, q, slots := PackInOrder(ctx, rects);
    at := AllReported(before, ctx.packer, s, labelled, sorted, done, back, rects[..], p, q, slots);
  }

  /**
    Over any number of calls: two rectangles placed by the calls, or one of them and anything that was
    placed earlier, never overlap, and each lies inside the target.
   */
  lemma PackedApart(p: Packer, r: Rect, q: Rect, i: int, j: int, before: nat)
    requires PackerOk(p) && Logged(r, i, before, p.placed) && Logged(q, j, before, p.placed)
    requires 0 <= i && 0 <= j && i != j
    ensures Inside(p.c, BoxOf(r)) && Inside(p.c, BoxOf(q))
    ensures forall x, y :: !(Has(BoxOf(r), x, y) && Has(BoxOf(q), x, y))
  {
    ApartIff(BoxOf(r), BoxOf(q));
    SafeAt(p.c, p.sky, p.placed, i);
    SafeAt(p.c, p.sky, p.placed, j);
  }

  // ----- Any sorting routine will do -----------------------------------------------------------------

  function Firsts(p: seq<nat>, k: nat): set<nat>
    requires k <= |p|
  {
    if k == 0 then {} else Firsts(p, k - 1) + {p[k - 1]}
  }

  lemma {:induction false} FirstsAt(p: seq<nat>, k: nat, x: nat) returns (j: nat)
    requires k <= |p| && x in Firsts(p, k)
    ensures j < k && p[j] == x
  {
    if p[k - 1] == x {
      j := k - 1;
    } else {
      j := FirstsAt(p, k - 1, x);
    }
  }

  lemma {:induction false} FirstsHas(p: seq<nat>, k: nat, j: nat)
    requires j < k <= |p|
    ensures p[j] in Firsts(p, k)
  {
    if j < k - 1 {
      FirstsHas(p, k - 1, j);
    }
  }

  lemma {:induction false} FirstsCount(p: seq<nat>, k: nat)
    requires Permutation(p, |p|) && k <= |p|
    ensures |Firsts(p, k)| == k
  {
    if k > 0 {
      FirstsCount(p, k - 1);
      if p[k - 1] in Firsts(p, k - 1) {
        var j := FirstsAt(p, k - 1, p[k - 1]);
      }
    }
  }

  function Below(n: nat): set<nat> {
    if n == 0 then {} else Below(n - 1) + {n - 1}
  }

  lemma {:induction false} BelowIs(n: nat)
    ensures |Below(n)| == n && forall x: nat :: x in Below(n) <==> x < n
  {
    if n > 0 {
      BelowIs(n - 1);
    }
  }

  lemma SmallerSet(a: set<nat>, b: set<nat>)
    requires a <= b
    ensures |a| <= |b| && (|a| == |b| ==> a == b)
  {
    assert b == a + (b - a);
    assert |b| == |a| + |b - a|;
  }

  /** A permutation lists every index. */
  lemma Lists(p: seq<nat>, x: nat) returns (j: nat)
    requires Permutation(p, |p|) && x < |p|
    ensures j < |p| && p[j] == x
  {
    var n := |p|;
    BelowIs(n);
    FirstsCount(p, n);
    forall y | y in Firsts(p, n) ensures y in Below(n) {
      var i := FirstsAt(p, n, y);
    }
    SmallerSet(Firsts(p, n), Below(n));
    j := FirstsAt(p, n, x);
  }

  /** At no place does one order have a rectangle that belongs before that of the other. */
  lemma NeverBefore(s: seq<Rect>, p: seq<nat>, q: seq<nat>, i: nat)
    requires Permutation(p, |s|) && Permutation(q, |s|) && i < |s|
    requires Falling(Arranged(s, p)) && Falling(Arranged(s, q))
    ensures Compare(ByHeight, s[p[i]], s[q[i]]) >= 0
  {
    var a, b := Arranged(s, p), Arranged(s, q);
    FallingIs(a);
    FallingIs(b);
    if Compare(ByHeight, a[i], b[i]) < 0 {
      forall x | x in Firsts(p, i + 1) ensures x in Firsts(q, i) {
        var j := FirstsAt(p, i + 1, x);
        var l := Lists(q, x);
        assert a[j] == s[x] == b[l];
        assert Compare(ByHeight, a[j], a[i]) <= 0;
        FirstsHas(q, i, l);
      }
      SmallerSet(Firsts(p, i + 1), Firsts(q, i));
      FirstsCount(p, i + 1);
      FirstsCount(q, i);
    }
  }

  /** What the target serves, and so where it puts it, does not depend on how the routine orders ties. */
  lemma SortDecidesNothing(before: Packer, s: seq<Rect>, p: seq<nat>, q: seq<nat>)
    requires PackerOk(before) && Permutation(p, |s|) && Permutation(q, |s|)
    requires Falling(Arranged(s, p)) && Falling(Arranged(s, q))
    ensures Requests(Arranged(s, p)) == Requests(Arranged(s, q))
    ensures Run(before, Requests(Arranged(s, p))) == Run(before, Requests(Arranged(s, q)))
  {
    forall i | 0 <= i < |s|
      ensures Arranged(s, p)[i].w == Arranged(s, q)[i].w && Arranged(s, p)[i].h == Arranged(s, q)[i].h
    {
      NeverBefore(s, p, q, i);
      NeverBefore(s, q, p, i);
    }
    SameRequests(Arranged(s, p), Arranged(s, q));
  }
}
