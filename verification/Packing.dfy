/**
  One packing step as a function on values: where a rectangle goes, and what the skyline, the free
  nodes and the placed rectangles are afterwards.
 */
module Packing {
  import opened Skyline

  datatype Heuristic = BottomLeft | BestFit

  datatype Config = Config(width: int, height: int, numNodes: int, align: int, heuristic: Heuristic)

  const BIG := 0x4000_0000  // 1 << 30, the source's "no position yet" and the sentinel's height

  ghost predicate ConfigOk(c: Config) {
    && 1 <= c.width && 0 <= c.height <= BIG && 1 <= c.numNodes && 1 <= c.align
  }

  /** The quantisation that setup_allow_out_of_mem(0) chooses. */
  function DefaultAlign(width: int, numNodes: int): int
    requires numNodes != 0
  {
    (width + numNodes - 1) / numNodes
  }

  lemma DefaultAlignPositive(width: int, n: int)
    requires 1 <= width && 1 <= n
    ensures 1 <= DefaultAlign(width, n)
  {
  }

  /** It is the least width of which n cover the target. */
  lemma DefaultAlignLeast(width: int, n: int)
    requires 1 <= width && 1 <= n
    ensures width <= n * DefaultAlign(width, n) && n * (DefaultAlign(width, n) - 1) < width
  {
    Quotient(width + n - 1, n);
  }

  /** The least multiple of the alignment that holds w columns. */
  function Rounded(w: nat, align: int): (r: int)
    requires 1 <= align
    ensures w <= r < w + align
  {
    if w == 0 then 0 else if w <= align then align else align + Rounded(w - align, align)
  }

  /** That is the width the source computes. */
  lemma {:induction false} RoundedIs(w: nat, align: int)
    requires 1 <= align
    ensures Rounded(w, align) == (w + align - 1) - (w + align - 1) % align
  {
    var up := w + align - 1;
    if w == 0 {
      ModSmall(up, align);
    } else if w <= align {
      ModOff(up, align);
      ModSmall(up - align, align);
    } else {
      RoundedIs(w - align, align);
      ModOff(up, align);
    }
  }

  lemma ModSmall(a: int, n: int)
    requires 0 <= a < n
    ensures a % n == a
  {
  }

  lemma Quotient(a: int, n: int)
    requires 0 < n
    ensures a == n * (a / n) + a % n && 0 <= a % n < n
  {
  }

  lemma NoMultiple(n: int, d: int)
    requires 0 < n && 1 <= d
    ensures n <= n * d
  {
  }

  lemma ModOff(a: int, n: int)
    requires 0 < n
    ensures a % n == (a - n) % n
  {
    var d := a / n - (a - n) / n - 1;
    Quotient(a, n);
    Quotient(a - n, n);
    assert n * d == n * (a / n) - n * ((a - n) / n) - n;
    if d <= -1 {
      NoMultiple(n, -d);
    } else if d >= 1 {
      NoMultiple(n, d);
    }
  }

  // ----- Choosing a position (stbrp__skyline_find_best_pos) ------------------------------------

  /** An attempt: the position x, the node k under it, and the height and waste reported there. */
  datatype Attempt = Attempt(k: nat, x: int, y: int, waste: int)

  function AttemptAt(s: Sky, k: nat, x: int, rw: int): Attempt
    requires k < |s| && x + rw <= s[|s| - 1].x
  {
    var p := Probe(s, k, x, rw);
    Attempt(k, x, p.minY, p.waste)
  }

  /** An attempt made at a position inside the target, over the node it names. */
  ghost predicate Tried(c: Config, s: Sky, rw: int, e: Attempt)
    requires Shape(s, c.width, c.height)
  {
    && e.k + 1 < |s| && s[e.k].x <= e.x < s[e.k + 1].x && 0 <= e.x && e.x + rw <= c.width
    && e == AttemptAt(s, e.k, e.x, rw)
  }

  /** The left-aligned attempts from node k on, in the order they are made. */
  function LeftAttempts(c: Config, s: Sky, rw: int, k: nat): seq<Attempt>
    requires Shape(s, c.width, c.height) && 0 < rw && k < |s|
    decreases |s| - k
  {
    if s[k].x + rw > c.width then []
    else [AttemptAt(s, k, s[k].x, rw)] + LeftAttempts(c, s, rw, k + 1)
  }

  /** The right-aligned attempts from node t on; a node closer than rw to the left edge has none. */
  function RightAttempts(c: Config, s: Sky, rw: int, t: nat): seq<Attempt>
    requires Shape(s, c.width, c.height) && 0 < rw && t <= |s|
    decreases |s| - t
  {
    if t == |s| then []
    else if s[t].x < rw then RightAttempts(c, s, rw, t + 1)
    else
      var x := s[t].x - rw;
      [AttemptAt(s, Find(s, x, |s|), x, rw)] + RightAttempts(c, s, rw, t + 1)
  }

  lemma {:induction false} LeftAttemptsTried(c: Config, s: Sky, rw: int, k: nat)
    requires Shape(s, c.width, c.height) && 0 < rw && k < |s|
    ensures var r := LeftAttempts(c, s, rw, k);
            && (forall e :: e in r ==> Tried(c, s, rw, e) && s[k].x <= e.x)
            && (forall i, j :: 0 <= i < j < |r| ==> r[i].x < r[j].x)
    decreases |s| - k
  {
    if s[k].x + rw <= c.width {
      LeftAttemptsTried(c, s, rw, k + 1);
    }
  }

  lemma {:induction false} RightAttemptsTried(c: Config, s: Sky, rw: int, t: nat)
    requires Shape(s, c.width, c.height) && 0 < rw && t <= |s|
    ensures forall e :: e in RightAttempts(c, s, rw, t) ==> Tried(c, s, rw, e)
    decreases |s| - t
  {
    if t < |s| {
      RightAttemptsTried(c, s, rw, t + 1);
      if rw <= s[t].x {
        HeightBounds(s, c.width, c.height, s[t].x - rw);
      }
    }
  }

  /** The best attempt so far; before the first one, a height and waste beyond every real one. */
  datatype Best = Best(found: bool, at: Attempt)

  const NoBest := Best(false, Attempt(0, 0, BIG, BIG))

  predicate TakesLeft(c: Config, h: int, e: Attempt, best: Attempt) {
    if c.heuristic.BottomLeft? then
      e.y < best.y
    else
      e.y + h <= c.height && (e.y < best.y || (e.y == best.y && e.waste < best.waste))
  }

  predicate TakesRight(c: Config, h: int, e: Attempt, best: Attempt) {
    && e.y + h <= c.height
    && e.y <= best.y
    && (e.y < best.y || e.waste < best.waste || (e.waste == best.waste && e.x < best.x))
  }

  function ChooseLeft(c: Config, h: int, es: seq<Attempt>, best: Best): (r: Best)
    ensures r == best || (r.found && r.at in es)
  {
    if es == [] then best
    else ChooseLeft(c, h, es[1..], if TakesLeft(c, h, es[0], best.at) then Best(true, es[0]) else best)
  }

  function ChooseRight(c: Config, h: int, es: seq<Attempt>, best: Best): (r: Best)
    ensures r == best || (r.found && r.at in es)
  {
    if es == [] then best
    else ChooseRight(c, h, es[1..], if TakesRight(c, h, es[0], best.at) then Best(true, es[0]) else best)
  }

  /** The search for a window of width rw. */
  function Search(c: Config, s: Sky, rw: int, h: int): Best
    requires Shape(s, c.width, c.height) && 0 < rw
  {
    if rw > c.width || h > c.height then NoBest
    else
      var left := ChooseLeft(c, h, LeftAttempts(c, s, rw, 0), NoBest);
      if c.heuristic.BottomLeft? then left else ChooseRight(c, h, RightAttempts(c, s, rw, 0), left)
  }

  /** What is found was tried. */
  lemma SearchTried(c: Config, s: Sky, rw: int, h: int)
    requires Shape(s, c.width, c.height) && 0 < rw
    ensures var r := Search(c, s, rw, h); if r.found then Tried(c, s, rw, r.at) else r == NoBest
  {
    LeftAttemptsTried(c, s, rw, 0);
    RightAttemptsTried(c, s, rw, 0);
  }

  function FindBest(c: Config, s: Sky, w: nat, h: int): (r: Best)
    requires ConfigOk(c) && Shape(s, c.width, c.height) && 0 < w
    ensures if r.found then Tried(c, s, Rounded(w, c.align), r.at) else r == NoBest
  {
    SearchTried(c, s, Rounded(w, c.align), h);
    Search(c, s, Rounded(w, c.align), h)
  }

  // ----- The splice (stbrp__skyline_pack_rectangle) --------------------------------------------

  /** The nodes from the first one that may be removed: those covered up to e go, the last is trimmed. */
  function Trim(s: Sky, e: int): Sky
    requires |s| > 0
  {
    if |s| > 1 && s[1].x <= e then Trim(s[1..], e) else [Pt(Max(s[0].x, e), s[0].y)] + s[1..]
  }

  /** The skyline after a node (x, top) of width w is spliced in at node k. */
  function Splice(s: Sky, k: nat, x: int, w: int, top: int): Sky
    requires k + 1 < |s|
  {
    if k > 0 then [s[0]] + Splice(s[1..], k - 1, x, w, top)
    else if s[0].x < x then [s[0], Pt(x, top)] + Trim(s[1..], x + w)
    else [Pt(x, top)] + Trim(s, x + w)
  }

  /** The first node that the splice may remove: node k itself is kept if it starts left of x. */
  function CutStart(s: Sky, k: nat, x: int): nat
    requires k < |s|
  {
    if s[k].x < x then k + 1 else k
  }

  /** The node that the splice stops at: it walks on while the next node starts at or before e. */
  function CutEnd(s: Sky, i: nat, e: int): (m: nat)
    requires i < |s|
    ensures i <= m < |s|
    decreases |s| - i
  {
    if i + 1 < |s| && s[i + 1].x <= e then CutEnd(s, i + 1, e) else i
  }

  /** How many nodes the splice hands back to the free list. */
  function Freed(s: Sky, k: nat, x: int, w: int): nat
    requires k + 1 < |s|
  {
    var i := CutStart(s, k, x);
    CutEnd(s, i, x + w) - i
  }

  /**
    Where the raised part ends. It goes beyond x + w only for a right-aligned position whose width
    was rounded up past the next node.
   */
  function RaisedEnd(s: Sky, k: nat, x: int, w: int): int
    requires k + 1 < |s|
  {
    if s[k].x < x then Max(s[k + 1].x, x + w) else x + w
  }

  // ----- A packing step ------------------------------------------------------------------------

  datatype Box = Box(x: int, y: int, w: int, h: int)

  /** free counts the free nodes; placed and waste are the history of the target, oldest first. */
  datatype Packer = Packer(c: Config, sky: Sky, free: nat, placed: seq<Box>, waste: int)

  datatype Placement = NoRoom | PlacedAt(x: int, y: int)

  /** The state after a w by h rectangle is put where attempt e found room. */
  function Place(p: Packer, e: Attempt, w: int, h: int): Packer
    requires e.k + 1 < |p.sky| && 0 < p.free
  {
    Packer(p.c, Splice(p.sky, e.k, e.x, w, e.y + h), p.free - 1 + Freed(p.sky, e.k, e.x, w),
           p.placed + [Box(e.x, e.y, w, h)], p.waste + e.waste)
  }

  function Pack(p: Packer, w: nat, h: int): (Packer, Placement)
    requires ConfigOk(p.c) && Shape(p.sky, p.c.width, p.c.height) && 0 < w
  {
    var b := FindBest(p.c, p.sky, w, h);
    if !b.found || b.at.y + h > p.c.height || p.free == 0 then (p, NoRoom)
    else (Place(p, b.at, w, h), PlacedAt(b.at.x, b.at.y))
  }

  function Fresh(c: Config): Packer {
    Packer(c, [Pt(0, 0), Pt(c.width, BIG)], if c.numNodes < 0 then 0 else c.numNodes, [], 0)
  }
}
