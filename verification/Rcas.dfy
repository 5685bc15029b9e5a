/** The sharpening filter RCAS over the reals: its contrast limiter, and the resolve that must not clip. */
module Rcas {

  const LIMIT: real := 0.25 - 1.0 / 16.0  // FSR_RCAS_LIMIT

  function Min(a: real, b: real): real {
    if a < b then a else b
  }

  function Max(a: real, b: real): real {
    if a > b then a else b
  }

  function Abs(a: real): real {
    if a < 0.0 then -a else a
  }

  /** ASatF1 */
  function Sat(a: real): real {
    Min(1.0, Max(0.0, a))
  }

  /** A product under a name, so that equal factors are seen to give equal products. */
  function Mul(a: real, b: real): real {
    a * b
  }

  /** ARcpF1 */
  function Rcp(a: real): real
    requires a != 0.0
  {
    1.0 / a
  }

  /** APrxMedRcpF1: one Newton step towards 1 / a, from the seed that the bits of a give */
  function NewtonRcp(a: real, seed: real): real {
    seed * (-seed * a + 2.0)
  }

  /** One channel of the five taps: the pixel e, and the ring b, d, f, h around it */
  datatype Taps = Taps(b: real, d: real, e: real, f: real, h: real)

  predicate InUnit(a: real) {
    0.0 <= a <= 1.0
  }

  predicate Valid(t: Taps) {
    InUnit(t.b) && InUnit(t.d) && InUnit(t.e) && InUnit(t.f) && InUnit(t.h)
  }

  function Least(t: Taps): real {
    Min(Min(t.b, Min(t.d, t.f)), t.h)
  }

  function Greatest(t: Taps): real {
    Max(Max(t.b, Max(t.d, t.f)), t.h)
  }

  /** Neither reciprocal of the limiter is that of zero. */
  predicate Usable(t: Taps) {
    Valid(t) && Greatest(t) > 0.0 && Least(t) < 1.0
  }

  /** n * ARcpF1(d) */
  function Over(n: real, d: real): real
    requires d != 0.0
  {
    n * Rcp(d)
  }

  /** hitMin, for a ring between mn and mx around e */
  function HitMin(mn: real, mx: real, e: real): real
    requires mx > 0.0
  {
    Over(Min(mn, e), 4.0 * mx)
  }

  /** hitMax */
  function HitMax(mn: real, mx: real, e: real): real
    requires mn < 1.0
  {
    Over(1.0 - Max(mx, e), 4.0 * mn - 4.0)
  }

  function LobeFor(mn: real, mx: real, e: real): real
    requires mx > 0.0 && mn < 1.0
  {
    Max(-HitMin(mn, mx, e), HitMax(mn, mx, e))
  }

  function ChannelLobe(t: Taps): real
    requires Usable(t)
  {
    LobeFor(Least(t), Greatest(t), t.e)
  }

  datatype Pixel = Pixel(r: Taps, g: Taps, b: Taps)

  predicate UsablePixel(p: Pixel) {
    Usable(p.r) && Usable(p.g) && Usable(p.b)
  }

  /** Luma, times 2 */
  function Luma(r: real, g: real, b: real): real {
    b * 0.5 + (r * 0.5 + g)
  }

  /** The factor of noise removal; rcp is what the approximate reciprocal of the luma range gives. */
  function Noise(p: Pixel, rcp: real): real {
    var bL, dL, eL := Luma(p.r.b, p.g.b, p.b.b), Luma(p.r.d, p.g.d, p.b.d), Luma(p.r.e, p.g.e, p.b.e);
    var fL, hL := Luma(p.r.f, p.g.f, p.b.f), Luma(p.r.h, p.g.h, p.b.h);
    -0.5 * Sat(Abs(0.25 * bL + 0.25 * dL + 0.25 * fL + 0.25 * hL - eL) * rcp) + 1.0
  }

  /** The lobe that the limits r, g and b of the channels allow */
  function Limited(r: real, g: real, b: real): real {
    Max(-LIMIT, Min(Max(r, Max(g, b)), 0.0))
  }

  /** The lobe that all three channels share, with the linear sharpness and the factor of noise removal */
  function Lobe(p: Pixel, sharp: real, noise: real): real
    requires UsablePixel(p)
  {
    Mul(Mul(Limited(ChannelLobe(p.r), ChannelLobe(p.g), ChannelLobe(p.b)), sharp), noise)
  }

  function Resolve(t: Taps, lobe: real, rcp: real): real {
    (lobe * t.b + lobe * t.d + lobe * t.h + lobe * t.f + t.e) * rcp
  }

  // ----- Products ----------------------------------------------------------------------------------

  lemma MulMono(a: real, b: real, c: real)
    requires a <= b && c >= 0.0
    ensures Mul(a, c) <= Mul(b, c)
  {
  }

  lemma MulStrict(a: real, b: real, c: real)
    requires a < b && c > 0.0
    ensures Mul(a, c) < Mul(b, c)
  {
  }

  lemma MulZero(a: real)
    ensures Mul(0.0, a) == 0.0 && Mul(a, 0.0) == 0.0 && Mul(1.0, a) == a && Mul(a, 1.0) == a
  {
  }

  lemma MulSwap(a: real, b: real)
    ensures Mul(a, b) == Mul(b, a)
  {
  }

  lemma MulDiff(a: real, b: real, c: real)
    ensures Mul(a, b - c) == Mul(a, b) - Mul(a, c) && Mul(b - c, a) == Mul(b, a) - Mul(c, a)
  {
  }

  lemma MulThree(a: real, b: real, c: real)
    ensures Mul(Mul(a, b), c) == Mul(a, Mul(b, c))
  {
  }

  /** A smaller first factor makes the product with a negative number greater. */
  lemma MulNeg(a: real, b: real, c: real)
    requires a <= 0.0 && b <= c
    ensures Mul(a, c) <= Mul(a, b)
  {
  }

  lemma OverMinus(n: real, d: real)
    requires d != 0.0
    ensures Over(n, -d) == -Over(n, d)
  {
  }

  // ----- The limiter -------------------------------------------------------------------------------

  function Ring(t: Taps): real {
    t.b + t.d + t.f + t.h
  }

  lemma RingBounds(t: Taps)
    ensures 4.0 * Least(t) <= Ring(t) <= 4.0 * Greatest(t)
    ensures Valid(t) ==> InUnit(Least(t)) && InUnit(Greatest(t))
  {
  }

  /** x is at least -n / d exactly when x * d is at least -n. */
  lemma QuotientBound(x: real, n: real, d: real)
    requires d > 0.0
    ensures x >= -Over(n, d) <==> Mul(x, d) >= -n
  {
  }

  /** The two sides of the limiter, without their divisions. */
  lemma LimiterIs(lobe: real, mn: real, mx: real, e: real)
    requires mx > 0.0 && mn < 1.0
    ensures lobe >= LobeFor(mn, mx, e)
            <==> Mul(lobe, 4.0 * mx) >= -Min(mn, e) && Mul(lobe, 4.0 - 4.0 * mn) >= -(1.0 - Max(mx, e))
  {
    QuotientBound(lobe, Min(mn, e), 4.0 * mx);
    var n, d := 1.0 - Max(mx, e), 4.0 - 4.0 * mn;
    QuotientBound(lobe, n, d);
    OverMinus(n, d);
    assert -d == 4.0 * mn - 4.0;
  }

  lemma ChannelLobeNegative(t: Taps)
    requires Usable(t)
    ensures ChannelLobe(t) <= 0.0
  {
    RingBounds(t);
    LimiterIs(0.0, Least(t), Greatest(t), t.e);
    MulZero(4.0 * Greatest(t));
    MulZero(4.0 - 4.0 * Least(t));
  }

  /** Scaling down by a factor up to 1 brings a negative lobe closer to 0. */
  lemma ScaledDown(a: real, s: real)
    requires a <= 0.0 && 0.0 <= s <= 1.0
    ensures a <= Mul(a, s) <= 0.0
  {
  }

  /** The noise factor never adds sharpness, and never takes away more than half of it. */
  lemma NoiseBounds(p: Pixel, rcp: real)
    ensures 0.5 <= Noise(p, rcp) <= 1.0
  {
  }

  /** The shared lobe keeps within the limits of all three channels, and the denominator stays clear of zero. */
  lemma LobeBounds(p: Pixel, sharp: real, noise: real)
    requires UsablePixel(p) && 0.0 < sharp <= 1.0 && 0.0 <= noise <= 1.0
    ensures var lobe := Lobe(p, sharp, noise);
            && -3.0 / 16.0 <= lobe <= 0.0 && 0.25 <= 4.0 * lobe + 1.0 <= 1.0
            && lobe >= ChannelLobe(p.r) && lobe >= ChannelLobe(p.g) && lobe >= ChannelLobe(p.b)
  {
    ChannelLobeNegative(p.r);
    ChannelLobeNegative(p.g);
    ChannelLobeNegative(p.b);
    var a := Limited(ChannelLobe(p.r), ChannelLobe(p.g), ChannelLobe(p.b));
    ScaledDown(a, sharp);
    ScaledDown(Mul(a, sharp), noise);
  }

  /** And it is the strongest such lobe: every lobe that the three limits allow is at or above it. */
  lemma LobeStrongest(p: Pixel, x: real)
    requires UsablePixel(p) && -3.0 / 16.0 <= x <= 0.0
    ensures x >= Lobe(p, 1.0, 1.0) <==> x >= ChannelLobe(p.r) && x >= ChannelLobe(p.g) && x >= ChannelLobe(p.b)
  {
    LobeBounds(p, 1.0, 1.0);
    var a := Limited(ChannelLobe(p.r), ChannelLobe(p.g), ChannelLobe(p.b));
    MulZero(a);
  }

  /** Sharpness and noise removal scale that lobe; noise removal that is off does nothing. */
  lemma LobeScales(p: Pixel, sharp: real, denoise: Denoise)
    requires UsablePixel(p)
    ensures Lobe(p, sharp, NoiseFactor(p, denoise))
            == Mul(Mul(sharp, if denoise.On? then Noise(p, denoise.of) else 1.0), Lobe(p, 1.0, 1.0))
  {
    var a, noise := Limited(ChannelLobe(p.r), ChannelLobe(p.g), ChannelLobe(p.b)), NoiseFactor(p, denoise);
    MulZero(a);
    MulThree(a, sharp, noise);
    MulSwap(a, Mul(sharp, noise));
  }

  predicate RingTap(t: Taps, v: real) {
    v == t.b || v == t.d || v == t.f || v == t.h
  }

  /** A ring that is v all round does not make w clip. */
  predicate Holds(lobe: real, v: real, w: real) {
    0.0 <= Mul(lobe, 4.0 * v) + w <= 4.0 * lobe + 1.0
  }

  /** The limit of a channel: any tap would keep from clipping in a ring as bright as any one tap of the ring. */
  lemma LimiterByTaps(t: Taps, lobe: real)
    requires Usable(t) && lobe <= 0.0
    ensures lobe >= ChannelLobe(t)
            <==> forall v, w :: RingTap(t, v) && (RingTap(t, w) || w == t.e) ==> Holds(lobe, v, w)
  {
    var mn, mx := Least(t), Greatest(t);
    LimiterIs(lobe, mn, mx, t.e);
    MulDiff(lobe, 4.0, 4.0 * mn);
    MulFour(lobe);
    if lobe >= ChannelLobe(t) {
      forall v, w | RingTap(t, v) && (RingTap(t, w) || w == t.e) ensures Holds(lobe, v, w) {
        MulNeg(lobe, 4.0 * v, 4.0 * mx);
        MulNeg(lobe, 4.0 * mn, 4.0 * v);
      }
    } else {
      assert RingTap(t, mn) && RingTap(t, mx);
      assert !Holds(lobe, mx, Min(mn, t.e)) || !Holds(lobe, mn, Max(mx, t.e));
    }
  }

  // ----- Noise -------------------------------------------------------------------------------------

  /** How far the pixel stands out of its ring */
  function Away(t: Taps): real {
    t.e - Ring(t) / 4.0
  }

  /** The same in luma, of the whole pixel */
  function LumaAway(p: Pixel): real {
    0.5 * Away(p.r) + Away(p.g) + 0.5 * Away(p.b)
  }

  /** The lumas of the five taps differ by at most `range`. */
  ghost predicate Within(p: Pixel, range: real) {
    forall s, t :: s in Lumas(p) && t in Lumas(p) ==> s - t <= range
  }

  function Lumas(p: Pixel): seq<real> {
    [Luma(p.r.b, p.g.b, p.b.b), Luma(p.r.d, p.g.d, p.b.d), Luma(p.r.e, p.g.e, p.b.e),
     Luma(p.r.f, p.g.f, p.b.f), Luma(p.r.h, p.g.h, p.b.h)]
  }

  lemma AwayWithin(p: Pixel, range: real)
    requires Within(p, range)
    ensures Abs(LumaAway(p)) <= range
    ensures var l := Lumas(p);
            Abs(0.25 * l[0] + 0.25 * l[1] + 0.25 * l[3] + 0.25 * l[4] - l[2]) == Abs(LumaAway(p))
  {
    var l := Lumas(p);
    assert forall i :: 0 <= i < 5 ==> l[i] in l;
    assert 0.25 * l[0] + 0.25 * l[1] + 0.25 * l[3] + 0.25 * l[4] - l[2] == -LumaAway(p);
  }

  /** With the exact reciprocal of the luma range, the share taken away is how far the pixel stands out of it. */
  lemma NoiseIs(p: Pixel, range: real)
    requires 0.0 < range && Within(p, range)
    ensures Mul(2.0 * (1.0 - Noise(p, Rcp(range))), range) == Abs(LumaAway(p))
  {
    AwayWithin(p, range);
    var share := Abs(LumaAway(p)) * Rcp(range);
    assert Mul(share, range) == Abs(LumaAway(p));
    InUnitIff(share, range);
    assert Noise(p, Rcp(range)) == -0.5 * Sat(share) + 1.0;
  }

  // ----- Nothing clips -----------------------------------------------------------------------------

  /** Before it is divided, a resolved channel lies between 0 and the denominator. */
  lemma ResolveBounds(lobe: real, mn: real, mx: real, e: real, ring: real)
    requires 0.0 <= mn < 1.0 && 0.0 < mx <= 1.0 && InUnit(e) && 4.0 * mn <= ring <= 4.0 * mx
    requires LobeFor(mn, mx, e) <= lobe <= 0.0
    ensures 0.0 <= Mul(lobe, ring) + e <= 4.0 * lobe + 1.0
  {
    LimiterIs(lobe, mn, mx, e);
    // the extremes are reached when the whole ring is at mx, or at mn
    MulNeg(lobe, ring, 4.0 * mx);
    MulNeg(lobe, 4.0 - ring, 4.0 - 4.0 * mn);
    MulDiff(lobe, 4.0, ring);
    MulFour(lobe);
  }

  lemma MulFour(a: real)
    ensures Mul(a, 4.0) == 4.0 * a
  {
  }

  lemma ResolveIs(t: Taps, lobe: real, rcp: real)
    ensures Resolve(t, lobe, rcp) == Mul(Mul(lobe, Ring(t)) + t.e, rcp)
  {
  }

  /** A Newton step never overshoots: from either side it ends at or below 1 / a, and squares the error. */
  lemma NewtonBounds(a: real, seed: real)
    requires a > 0.0 && 0.0 <= Mul(seed, a) <= 2.0
    ensures 0.0 <= Mul(NewtonRcp(a, seed), a) <= 1.0
    ensures var off := 1.0 - Mul(seed, a); 1.0 - Mul(NewtonRcp(a, seed), a) == Mul(off, off)
  {
    var x := Mul(seed, a);
    assert NewtonRcp(a, seed) == Mul(seed, 2.0 - x) by {
      assert (-seed) * a == -x;
    }
    MulThree(seed, 2.0 - x, a);
    MulSwap(2.0 - x, a);
    MulThree(seed, a, 2.0 - x);
    NewtonSquare(x);
  }

  lemma NewtonSquare(x: real)
    requires 0.0 <= x <= 2.0
    ensures 0.0 <= Mul(x, 2.0 - x) <= 1.0
    ensures 1.0 - Mul(x, 2.0 - x) == Mul(1.0 - x, 1.0 - x)
  {
    MulMono(0.0, x, 2.0 - x);
    MulZero(2.0 - x);
    assert Mul(1.0 - x, 1.0 - x) >= 0.0 by {
      if x <= 1.0 {
        MulMono(0.0, 1.0 - x, 1.0 - x);
      } else {
        MulNeg(1.0 - x, 1.0 - x, 0.0);
      }
      MulZero(1.0 - x);
    }
    assert Mul(x, 2.0 - x) == 1.0 - Mul(1.0 - x, 1.0 - x);
  }

  /** Anything between 0 and the denominator, times a reciprocal that does not overshoot, is in range. */
  lemma TimesReciprocal(num: real, den: real, rcp: real)
    requires 0.0 <= num <= den && den > 0.0 && 0.0 <= Mul(rcp, den) <= 1.0
    ensures InUnit(Mul(num, rcp))
  {
    MulZero(den);
    MulZero(rcp);
    MulSwap(rcp, den);
    if rcp < 0.0 {
      MulStrict(rcp, 0.0, den);
    }
    MulMono(0.0, num, rcp);
    MulMono(num, den, rcp);
  }

  /** How the reciprocal is taken: exactly, or by one Newton step from a seed */
  datatype Method = Exact | Newton(seed: real)

  function Reciprocal(a: real, how: Method): real
    requires a > 0.0
  {
    match how
    case Exact => Rcp(a)
    case Newton(seed) => NewtonRcp(a, seed)
  }

  /** The seed is not too far off. */
  ghost predicate Near(a: real, how: Method) {
    how.Exact? || 0.0 <= Mul(how.seed, a) <= 2.0
  }

  lemma ReciprocalBounds(a: real, how: Method)
    requires a > 0.0 && Near(a, how)
    ensures 0.0 <= Mul(Reciprocal(a, how), a) <= 1.0
    ensures how.Exact? ==> Mul(Reciprocal(a, how), a) == 1.0
  {
    match how
    case Exact => assert Mul(Rcp(a), a) == 1.0;
    case Newton(seed) => NewtonBounds(a, seed);
  }

  lemma ChannelNeverClips(t: Taps, lobe: real, how: Method)
    requires Usable(t) && ChannelLobe(t) <= lobe <= 0.0 && 4.0 * lobe + 1.0 > 0.0
    ensures Near(4.0 * lobe + 1.0, how) ==> InUnit(Resolve(t, lobe, Reciprocal(4.0 * lobe + 1.0, how)))
  {
    var den := 4.0 * lobe + 1.0;
    if Near(den, how) {
      RingBounds(t);
      ResolveBounds(lobe, Least(t), Greatest(t), t.e, Ring(t));
      ReciprocalBounds(den, how);
      TimesReciprocal(Mul(lobe, Ring(t)) + t.e, den, Reciprocal(den, how));
      ResolveIs(t, lobe, Reciprocal(den, how));
    }
  }

  /** With noise removal, the factor that the approximate reciprocal `of` of the luma range gives; or 1 */
  datatype Denoise = Off | On(of: real)

  function NoiseFactor(p: Pixel, denoise: Denoise): real {
    match denoise
    case Off => 1.0
    case On(of) => Noise(p, of)
  }

  /** The filter never clips, whatever the taps and the sharpness, with or without noise removal. */
  lemma NeverClips(p: Pixel, sharp: real, denoise: Denoise, how: Method)
    requires UsablePixel(p) && 0.0 < sharp <= 1.0
    ensures var lobe := Lobe(p, sharp, NoiseFactor(p, denoise));
            var den := 4.0 * lobe + 1.0;
            && den >= 0.25
            && (Near(den, how) ==>
                  var rcp := Reciprocal(den, how);
                  && InUnit(Resolve(p.r, lobe, rcp))
                  && InUnit(Resolve(p.g, lobe, rcp))
                  && InUnit(Resolve(p.b, lobe, rcp)))
  {
    if denoise.On? {
      NoiseBounds(p, denoise.of);
    }
    LobeBounds(p, sharp, NoiseFactor(p, denoise));
    var lobe := Lobe(p, sharp, NoiseFactor(p, denoise));
    ChannelNeverClips(p.r, lobe, how);
    ChannelNeverClips(p.g, lobe, how);
    ChannelNeverClips(p.b, lobe, how);
  }

  // ----- The limiter is no stricter than it must be ------------------------------------------------

  /** All taps of the ring are the same. */
  predicate Flat(t: Taps) {
    t.b == t.d == t.f == t.h
  }

  /** Around a flat ring, the limiter lets through exactly those lobes within the limit that do not clip. */
  lemma FlatExact(t: Taps, lobe: real)
    requires Usable(t) && Flat(t) && -LIMIT <= lobe <= 0.0
    ensures 4.0 * lobe + 1.0 > 0.0
    ensures InUnit(Resolve(t, lobe, Rcp(4.0 * lobe + 1.0))) <==> lobe >= ChannelLobe(t)
  {
    var m := t.b;
    assert Ring(t) == 4.0 * m && Least(t) == m && Greatest(t) == m;
    ResolveTimes(t, lobe);
    InUnitIff(Resolve(t, lobe, Rcp(4.0 * lobe + 1.0)), 4.0 * lobe + 1.0);
    LimiterIs(lobe, m, m, t.e);
    FlatLimiter(m, t.e, lobe);
  }

  lemma ResolveTimes(t: Taps, lobe: real)
    requires 4.0 * lobe + 1.0 > 0.0
    ensures var den := 4.0 * lobe + 1.0; Mul(Resolve(t, lobe, Rcp(den)), den) == Mul(lobe, Ring(t)) + t.e
  {
  }

  lemma InUnitIff(out: real, den: real)
    requires den > 0.0
    ensures InUnit(out) <==> 0.0 <= Mul(out, den) <= den
  {
  }

  lemma FlatLimiter(m: real, e: real, lobe: real)
    requires 0.0 < m < 1.0 && InUnit(e) && -LIMIT <= lobe <= 0.0
    ensures Mul(lobe, 4.0 * m) >= -Min(m, e) && Mul(lobe, 4.0 - 4.0 * m) >= -(1.0 - Max(m, e))
            <==> 0.0 <= Mul(lobe, 4.0 * m) + e <= 4.0 * lobe + 1.0
  {
    MulMono(-LIMIT, lobe, 4.0 * m);
    MulMono(-LIMIT, lobe, 4.0 - 4.0 * m);
    MulDiff(lobe, 4.0, 4.0 * m);
    MulFour(lobe);
    assert Mul(-LIMIT, 4.0 * m) == -0.75 * m && Mul(-LIMIT, 4.0 - 4.0 * m) == -0.75 * (1.0 - m);
    FlatCases(m, e, lobe, Mul(lobe, 4.0 * m), Mul(lobe, 4.0 - 4.0 * m));
  }

  lemma FlatCases(m: real, e: real, lobe: real, low: real, high: real)
    requires 0.0 < m < 1.0 && low >= -0.75 * m && high >= -0.75 * (1.0 - m) && high == 4.0 * lobe - low
    ensures low >= -Min(m, e) && high >= -(1.0 - Max(m, e)) <==> 0.0 <= low + e <= 4.0 * lobe + 1.0
  {
  }

  // ----- It sharpens -------------------------------------------------------------------------------

  /** With the exact reciprocal, a pixel moves by the lobe times what sets each tap of the ring apart from it. */
  lemma Moves(t: Taps, lobe: real)
    requires 4.0 * lobe + 1.0 > 0.0
    ensures Mul(Resolve(t, lobe, Rcp(4.0 * lobe + 1.0)) - t.e, 4.0 * lobe + 1.0)
            == Mul(lobe, (t.b - t.e) + (t.d - t.e) + (t.f - t.e) + (t.h - t.e))
  {
  }

  /** A pixel moves away from the mean of its ring, never towards it; where it equals it, nothing changes. */
  lemma Sharpens(t: Taps, lobe: real)
    requires -LIMIT <= lobe <= 0.0
    ensures 4.0 * lobe + 1.0 > 0.0
    ensures var out := Resolve(t, lobe, Rcp(4.0 * lobe + 1.0));
            && (t.e >= Ring(t) / 4.0 ==> out >= t.e)
            && (t.e <= Ring(t) / 4.0 ==> out <= t.e)
  {
    var den := 4.0 * lobe + 1.0;
    var out := Resolve(t, lobe, Rcp(den));
    Moves(t, lobe);
    MulZero(lobe);
    MulZero(den);
    if t.e >= Ring(t) / 4.0 {
      MulNeg(lobe, Ring(t) - 4.0 * t.e, 0.0);
      if out < t.e {
        MulStrict(out - t.e, 0.0, den);
      }
    }
    if t.e <= Ring(t) / 4.0 {
      MulNeg(lobe, 0.0, Ring(t) - 4.0 * t.e);
      if out > t.e {
        MulStrict(0.0, out - t.e, den);
      }
    }
  }
}
