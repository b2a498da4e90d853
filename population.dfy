/** Values of the triangle population of src/Triangles.ts: how `createTriangle` and
    `getRandomColor` build a triangle from the base colour, the canvas size and the
    draws of `Math.random()`, and what `updateTriangles`' `forEach` walk does to the
    list, stated over values. The classes in module Triangles are proved against
    these functions. */
module Population {
  import opened Random
  import opened Color

  /** `Math.sqrt(3) / 2`, the ratio of an equilateral triangle's height to its side,
      as the double the source computes. Only its positivity is used. */
  const SqrtThreeHalves: real := 0.8660254037844386

  /** `wave`: half the width of the lightness band around the base lightness. */
  const Wave: real := 0.05

  /** The `hsl(h, s%, l%)` string a triangle is painted with, kept as its numbers:
      the base hue, the base saturation and the drawn lightness, as fractions. */
  datatype CssColor = Hsl(hue: int, saturation: real, lightness: real)

  /** The value of one `Triangle` object: `x` is the left edge, `y` the top vertex. */
  datatype Shape = Shape(color: CssColor, width: real, height: real, x: real, y: real)

  /** The four calls of `Math.random()` one `createTriangle` makes, in the order the
      source evaluates them: the width, the lightness inside `getRandomColor`, `x`,
      and `y` (the last one is not drawn when the triangle starts at the bottom). */
  datatype Draws = Draws(size: real, light: real, left: real, top: real)

  predicate IsDraws(d: Draws) {
    IsDraw(d.size) && IsDraw(d.light) && IsDraw(d.left) && IsDraw(d.top)
  }

  // ---------------------------------------------------------------------------
  // getRandomColor

  /** `minLight`: the base lightness minus the wave, raised to 0 if below. */
  function MinLight(base: HSLColor): real {
    if base.l - Wave < 0.0 then 0.0 else base.l - Wave
  }

  /** `maxLight`: the base lightness plus the wave, lowered to 1 if above. */
  function MaxLight(base: HSLColor): real {
    if base.l + Wave > 1.0 then 1.0 else base.l + Wave
  }

  /** `getRandomColor`: a lightness drawn with `randomNum` between the band's ends
      in percent, divided back by 100; hue and saturation are the base colour's. */
  function RandomColor(base: HSLColor, draw: real): CssColor {
    var randomLight := RandomNum(draw, MinLight(base) * 100.0, MaxLight(base) * 100.0) as real / 100.0;
    Hsl(base.h, base.s, randomLight)
  }

  /** Whether a real is a whole number. */
  predicate IsWhole(x: real) {
    x.Floor as real == x
  }

  /** The band is clamped to 0 <= minLight <= l <= maxLight <= 1 and is at most
      0.1 wide. The drawn lightness is a whole percentage in [0, 1]; it lies in the
      band when both ends are whole percentages, and otherwise less than one
      percent outside it, because `randomNum` truncates fractional bounds. Hue and
      saturation pass through unchanged. */
  lemma RandomColorInBand(base: HSLColor, draw: real)
    requires IsDraw(draw) && 0.0 <= base.l <= 1.0
    ensures 0.0 <= MinLight(base) <= base.l <= MaxLight(base) <= 1.0
    ensures MaxLight(base) - MinLight(base) <= 2.0 * Wave
    ensures var c := RandomColor(base, draw);
            c.hue == base.h && c.saturation == base.s &&
            IsWhole(c.lightness * 100.0) &&
            0.0 <= c.lightness <= 1.0 &&
            MinLight(base) - 0.01 < c.lightness < MaxLight(base) + 0.01
    ensures IsWhole(MinLight(base) * 100.0) && IsWhole(MaxLight(base) * 100.0) ==>
            MinLight(base) <= RandomColor(base, draw).lightness <= MaxLight(base)
  {
    LightBandBounds(base);
    var lo, hi := MinLight(base) * 100.0, MaxLight(base) * 100.0;
    var n := PercentDraw(draw, lo, hi);
    PercentToUnit(n, lo, hi);
  }

  /** The band's ends are clamped to [0, 1] around the base lightness. */
  lemma LightBandBounds(base: HSLColor)
    requires 0.0 <= base.l <= 1.0
    ensures 0.0 <= MinLight(base) <= base.l <= MaxLight(base) <= 1.0
    ensures MaxLight(base) - MinLight(base) <= 2.0 * Wave
  {
  }

  /** A percentage drawn with `randomNum` between two ends in [0, 100]. */
  lemma PercentDraw(draw: real, lo: real, hi: real) returns (n: int)
    requires IsDraw(draw) && 0.0 <= lo <= hi <= 100.0
    ensures n == RandomNum(draw, lo, hi)
    ensures 0 <= n <= 100 && lo - 1.0 < n as real < hi + 1.0
    ensures IsWhole(lo) && IsWhole(hi) ==> lo <= n as real <= hi
  {
    n := RandomNum(draw, lo, hi);
    RandomNumBounds(draw, lo, hi);
    if IsWhole(lo) && IsWhole(hi) {
      RandomNumInRange(draw, lo.Floor, hi.Floor);
    }
  }

  /** A whole percentage divided by 100 keeps its bounds, scaled. */
  lemma PercentToUnit(n: int, lo: real, hi: real)
    requires 0 <= n <= 100 && lo - 1.0 < n as real < hi + 1.0
    ensures var v := n as real / 100.0;
            IsWhole(v * 100.0) && 0.0 <= v <= 1.0 &&
            lo / 100.0 - 0.01 < v < hi / 100.0 + 0.01 &&
            (lo <= n as real <= hi ==> lo / 100.0 <= v <= hi / 100.0)
  {
    assert n as real / 100.0 * 100.0 == n as real;
  }

  /** With base lightness 10/17 (the colour rgb(100, 150, 200)) the band starts at
      53.82...%, and the draw 0 gives 53%: below the band. */
  lemma RandomColorBelowBand()
    ensures var base := HSLColor(210, 10.0 / 21.0, 10.0 / 17.0);
            RandomColor(base, 0.0).lightness == 0.53 < MinLight(base)
  {
    var base := HSLColor(210, 10.0 / 21.0, 10.0 / 17.0);
    assert MinLight(base) * 100.0 == 1000.0 / 17.0 - 5.0;
    assert RandomNum(0.0, MinLight(base) * 100.0, MaxLight(base) * 100.0) == 53;
  }

  // ---------------------------------------------------------------------------
  // createTriangle

  /** `createTriangle(isFromStart)` on a canvas of the given size: a whole width
      between 3% and 25% of the canvas width, the equilateral height, a colour from
      `getRandomColor`, `x` allowing half the width off either side, and `y` either
      the canvas height or anywhere from one height above to one height below. */
  function NewTriangle(width: nat, height: nat, base: HSLColor, isFromStart: bool, d: Draws): Shape {
    var tWidth := RandomNum(d.size, width as real * 0.03, width as real * 0.25) as real;
    var tHeight := SqrtThreeHalves * tWidth;
    Shape(
      RandomColor(base, d.light),
      tWidth,
      tHeight,
      RandomNum(d.left, 0.0 - tWidth * 0.5, width as real + tWidth * 0.5) as real,
      if isFromStart then height as real
      else RandomNum(d.top, 0.0 - tHeight, height as real + tHeight) as real)
  }

  /** A triangle whose top vertex has risen above the canvas by more than its own
      height (`el.y < 0 - el.height`). */
  predicate Expired(t: Shape) {
    t.y < 0.0 - t.height
  }

  /** A triangle after `el.y -= el.height * .001`. */
  function Aged(t: Shape): Shape {
    t.(y := t.y - t.height * 0.001)
  }

  /** The width `randomNum(w * .03, w * .25)`: a whole number, non-negative, within
      one pixel of [3%, 25%] of the canvas width, and exactly within it when the
      canvas width is a multiple of 100. */
  lemma NewWidthBounds(width: nat, r: real)
    requires IsDraw(r)
    ensures var w := RandomNum(r, width as real * 0.03, width as real * 0.25) as real;
            IsWhole(w) && 0.0 <= w &&
            width as real * 0.03 - 1.0 < w < width as real * 0.25 + 1.0 &&
            (width % 100 == 0 ==> (width / 100 * 3) as real <= w <= (width / 4) as real)
  {
    var lo, hi := width as real * 0.03, width as real * 0.25;
    RandomNumBounds(r, lo, hi);
    TruncOfInt(0);
    if width % 100 == 0 {
      assert lo == (width / 100 * 3) as real && hi == (width / 4) as real;
      RandomNumInRange(r, width / 100 * 3, width / 4);
    }
  }

  /** A coordinate `randomNum(0 - margin, extent + margin)` with a non-negative
      margin is at least `-margin` (truncation toward zero never goes below a
      negative lower bound) and less than one pixel above `extent + margin`. */
  lemma MarginBounds(r: real, margin: real, extent: real)
    requires IsDraw(r) && 0.0 <= margin && 0.0 <= extent
    ensures var v := RandomNum(r, 0.0 - margin, extent + margin) as real;
            0.0 - margin <= v < extent + margin + 1.0
  {
    RandomNumBounds(r, 0.0 - margin, extent + margin);
  }

  /** Geometry of a new triangle: equilateral, a whole non-negative width within
      one pixel of [3%, 25%] of the canvas width (exactly within it when the canvas
      width is a multiple of 100), `x` at least `-width/2` and less than one pixel
      above `canvasWidth + width/2`, and `y` exactly the canvas height when it starts
      at the bottom, otherwise at least `-height` and less than one pixel above
      `canvasHeight + height`. Either way it is not expired. */
  lemma NewTriangleGeometry(width: nat, height: nat, base: HSLColor, isFromStart: bool, d: Draws)
    requires IsDraws(d)
    ensures var t := NewTriangle(width, height, base, isFromStart, d);
            t.height == SqrtThreeHalves * t.width &&
            t.color == RandomColor(base, d.light) &&
            IsWhole(t.width) && 0.0 <= t.width &&
            width as real * 0.03 - 1.0 < t.width < width as real * 0.25 + 1.0 &&
            0.0 - t.width * 0.5 <= t.x < width as real + t.width * 0.5 + 1.0
    ensures var t := NewTriangle(width, height, base, isFromStart, d);
            width % 100 == 0 ==> (width / 100 * 3) as real <= t.width <= (width / 4) as real
    ensures var t := NewTriangle(width, height, base, isFromStart, d);
            isFromStart ==> t.y == height as real
    ensures var t := NewTriangle(width, height, base, isFromStart, d);
            !isFromStart ==> 0.0 - t.height <= t.y < height as real + t.height + 1.0
    ensures !Expired(NewTriangle(width, height, base, isFromStart, d))
  {
    NewWidthBounds(width, d.size);
    var tWidth := RandomNum(d.size, width as real * 0.03, width as real * 0.25) as real;
    MarginBounds(d.left, tWidth * 0.5, width as real);
    MarginBounds(d.top, SqrtThreeHalves * tWidth, height as real);
  }

  // ---------------------------------------------------------------------------
  // init and updateTriangles, over values

  /** The triangles `init` creates: the i-th from the i-th draws, scattered. */
  function Populate(width: nat, height: nat, base: HSLColor, draws: seq<Draws>): (ts: seq<Shape>)
    ensures |ts| == |draws|
    ensures forall i :: 0 <= i < |draws| ==> ts[i] == NewTriangle(width, height, base, false, draws[i])
  {
    seq(|draws|, i requires 0 <= i < |draws| => NewTriangle(width, height, base, false, draws[i]))
  }

  /** The replacements `updateTriangles` creates: the j-th from the j-th draws, at
      the bottom of the canvas. */
  function Born(width: nat, height: nat, base: HSLColor, draws: seq<Draws>): (ts: seq<Shape>)
    ensures |ts| == |draws|
    ensures forall j :: 0 <= j < |draws| ==> ts[j] == NewTriangle(width, height, base, true, draws[j])
  {
    seq(|draws|, j requires 0 <= j < |draws| => NewTriangle(width, height, base, true, draws[j]))
  }

  /** The list after a walk, and how many replacements it took. */
  datatype Tick = Tick(list: seq<Shape>, used: nat)

  /** `forEach` from index `k` on: the visit range is the list's length when the walk
      starts and each visit reads the element now at index `k`. An expired triangle
      is spliced out and the next replacement pushed at the end; the decrement that
      follows hits the spliced-out object, which is no longer in the list. Any
      other triangle is aged in place.
      Each splice is paired with a push, so the walk keeps the list's length (which
      is why the range fixed at the start is also the live length), and it takes at
      most one replacement per visit. */
  function Walk(ts: seq<Shape>, k: nat, born: seq<Shape>): (r: Tick)
    requires k <= |ts| && |ts| - k <= |born|
    ensures |r.list| == |ts|
    ensures r.used <= |ts| - k
    decreases |ts| - k
  {
    if k == |ts| then Tick(ts, 0)
    else if Expired(ts[k]) then
      var rest := Walk(ts[..k] + ts[k + 1..] + [born[0]], k + 1, born[1..]);
      Tick(rest.list, rest.used + 1)
    else
      Walk(ts[k := Aged(ts[k])], k + 1, born)
  }

  /** One visit of the walk at index `k`, given the state `p` the earlier visits
      left: the same step as Walk's, with the next replacement `born[p.used]`. */
  function VisitAt(p: Tick, k: nat, born: seq<Shape>): (q: Tick)
    requires k < |p.list| && p.used < |born|
    ensures |q.list| == |p.list|
    ensures q.used == if Expired(p.list[k]) then p.used + 1 else p.used
    ensures q.list[..k] == p.list[..k]
  {
    if Expired(p.list[k]) then Tick(p.list[..k] + p.list[k + 1..] + [born[p.used]], p.used + 1)
    else Tick(p.list[k := Aged(p.list[k])], p.used)
  }

  /** The state after the first `n` visits, computed forwards as the loop does. */
  function WalkFirst(ts: seq<Shape>, born: seq<Shape>, n: nat): (p: Tick)
    requires n <= |ts| <= |born|
    ensures |p.list| == |ts| && p.used <= n
  {
    if n == 0 then Tick(ts, 0) else VisitAt(WalkFirst(ts, born, n - 1), n - 1, born)
  }

  /** The forward walk's next state, spelt out from the current one. */
  lemma WalkFirstStep(ts: seq<Shape>, born: seq<Shape>, k: nat, cur: seq<Shape>, used: nat)
    requires k < |ts| <= |born| && WalkFirst(ts, born, k) == Tick(cur, used)
    ensures used <= k && k < |cur|
    ensures WalkFirst(ts, born, k + 1) ==
            if Expired(cur[k]) then Tick(cur[..k] + cur[k + 1..] + [born[used]], used + 1)
            else Tick(cur[k := Aged(cur[k])], used)
  {
  }

  /** Finishing the walk from the state after `n` forward visits gives the whole walk. */
  lemma {:induction false} WalkFirstThenRest(ts: seq<Shape>, born: seq<Shape>, n: nat)
    requires n <= |ts| <= |born|
    ensures var p := WalkFirst(ts, born, n);
            Walk(p.list, n, born[p.used..]).list == Walk(ts, 0, born).list &&
            Walk(p.list, n, born[p.used..]).used + p.used == Walk(ts, 0, born).used
  {
    if n > 0 {
      WalkFirstThenRest(ts, born, n - 1);
      var p := WalkFirst(ts, born, n - 1);
      var q := VisitAt(p, n - 1, born);
      assert WalkFirst(ts, born, n) == q;
      WalkStep(p, n - 1, born);
      var before, after := Walk(p.list, n - 1, born[p.used..]), Walk(q.list, n, born[q.used..]);
      assert before.list == after.list && before.used + p.used == after.used + q.used;
    }
  }

  /** One visit of the walk, from the state `p` with the replacements not yet used,
      is VisitAt. */
  lemma WalkStep(p: Tick, k: nat, born: seq<Shape>)
    requires k < |p.list| && p.used <= |born| && |p.list| - k <= |born| - p.used
    ensures var q := VisitAt(p, k, born);
            var rest := Walk(q.list, k + 1, born[q.used..]);
            Walk(p.list, k, born[p.used..]).list == rest.list &&
            Walk(p.list, k, born[p.used..]).used == rest.used + q.used - p.used
  {
    var q := VisitAt(p, k, born);
    if Expired(p.list[k]) {
      assert born[p.used..][0] == born[p.used];
      assert born[p.used..][1..] == born[q.used..];
    }
  }

  /** The forward walk over the whole list is Walk. */
  lemma WalkFirstIsWalk(ts: seq<Shape>, born: seq<Shape>)
    requires |ts| <= |born|
    ensures WalkFirst(ts, born, |ts|) == Walk(ts, 0, born)
  {
    WalkFirstThenRest(ts, born, |ts|);
  }

  /** Indices the walk has passed are never touched again. */
  lemma {:induction false} WalkKeepsVisited(ts: seq<Shape>, k: nat, born: seq<Shape>)
    requires k <= |ts| && |ts| - k <= |born|
    ensures Walk(ts, k, born).list[..k] == ts[..k]
    decreases |ts| - k
  {
    if k < |ts| {
      if Expired(ts[k]) {
        var next := ts[..k] + ts[k + 1..] + [born[0]];
        WalkKeepsVisited(next, k + 1, born[1..]);
        assert next[..k] == ts[..k];
      } else {
        var next := ts[k := Aged(ts[k])];
        WalkKeepsVisited(next, k + 1, born);
        assert next[..k] == ts[..k];
      }
    }
  }

  /** The element that shifts into the index an expired triangle was spliced out
      of is not visited in that tick: it stays at that index, unchanged (not aged,
      even when it is expired itself). */
  lemma WalkSkipsShifted(ts: seq<Shape>, k: nat, born: seq<Shape>)
    requires k + 1 < |ts| && |ts| - k <= |born| && Expired(ts[k])
    ensures Walk(ts, k, born).list[k] == ts[k + 1]
  {
    var next := ts[..k] + ts[k + 1..] + [born[0]];
    WalkKeepsVisited(next, k + 1, born[1..]);
    assert next[k] == ts[k + 1];
    assert Walk(ts, k, born).list[..k + 1][k] == next[..k + 1][k];
  }

  /** Every triangle aged once, in order. */
  function AgeAll(ts: seq<Shape>): (r: seq<Shape>)
    ensures |r| == |ts|
  {
    seq(|ts|, i requires 0 <= i < |ts| => Aged(ts[i]))
  }

  /** When no triangle the walk still has to visit is expired, the walk removes
      nothing, takes no replacement and ages each of them once in place. */
  lemma {:induction false} WalkAgesLive(ts: seq<Shape>, k: nat, born: seq<Shape>)
    requires k <= |ts| && |ts| - k <= |born|
    requires forall p :: k <= p < |ts| ==> !Expired(ts[p])
    ensures Walk(ts, k, born) == Tick(ts[..k] + AgeAll(ts[k..]), 0)
    decreases |ts| - k
  {
    if k == |ts| {
      assert ts[..k] + AgeAll(ts[k..]) == ts;
    } else {
      var next := ts[k := Aged(ts[k])];
      WalkAgesLive(next, k + 1, born);
      assert next[..k + 1] == ts[..k] + [Aged(ts[k])];
      assert next[k + 1..] == ts[k + 1..];
      assert AgeAll(ts[k..]) == [Aged(ts[k])] + AgeAll(ts[k + 1..]);
    }
  }

  /** The triangles `init` scatters are never expired. */
  lemma PopulateLive(width: nat, height: nat, base: HSLColor, draws: seq<Draws>)
    requires forall i :: 0 <= i < |draws| ==> IsDraws(draws[i])
    ensures forall i :: 0 <= i < |draws| ==> !Expired(Populate(width, height, base, draws)[i])
  {
    forall i | 0 <= i < |draws|
      ensures !Expired(Populate(width, height, base, draws)[i])
    {
      NewTriangleGeometry(width, height, base, false, draws[i]);
    }
  }

  /** The first walk after `init` replaces nothing: it ages every scattered
      triangle once. */
  lemma FirstWalkAgesAll(width: nat, height: nat, base: HSLColor, draws: seq<Draws>, born: seq<Shape>)
    requires forall i :: 0 <= i < |draws| ==> IsDraws(draws[i])
    requires |draws| <= |born|
    ensures Walk(Populate(width, height, base, draws), 0, born) == Tick(AgeAll(Populate(width, height, base, draws)), 0)
  {
    var ts := Populate(width, height, base, draws);
    PopulateLive(width, height, base, draws);
    WalkAgesLive(ts, 0, born);
    assert ts[..0] + AgeAll(ts[0..]) == AgeAll(ts);
  }

  /** `a` is `b`, aged at most once. */
  predicate AgedAtMostOnce(a: Shape, b: Shape) {
    a == b || a == Aged(b)
  }

  /** What WalkTail states of the walk `r` from index `k` on, for a tail of `m`
      triangles of `ts`. */
  predicate TailMoves(ts: seq<Shape>, k: nat, born: seq<Shape>, m: nat, r: Tick)
    requires |r.list| == |ts|
  {
    && m + r.used <= |ts|
    && (|ts| - k <= m ==> r.used == 0)
    && (forall p :: |ts| - m <= p < |ts| ==> AgedAtMostOnce(r.list[p - r.used], ts[p]))
    && (forall j :: 0 <= j < r.used && j < |born| ==> AgedAtMostOnce(r.list[|ts| - r.used + j], born[j]))
  }

  /** The requirement of WalkTail: the tail and the replacements do not expire. */
  predicate TailStaysLive(ts: seq<Shape>, k: nat, born: seq<Shape>, m: nat) {
    && (forall p :: k <= p < |ts| && |ts| - m <= p ==> !Expired(ts[p]))
    && (forall j :: 0 <= j < |born| ==> !Expired(born[j]))
  }

  /** The generalised form of WalkAppendsReplacements: a tail of `m` triangles that
      will not expire when visited moves left as a block, one place per removal,
      and the replacements follow it in order. When no triangle the walk still has
      to visit expires, it removes none. */
  lemma {:induction false} WalkTail(ts: seq<Shape>, k: nat, born: seq<Shape>, m: nat)
    requires k <= |ts| && |ts| - k <= |born| && m <= |ts|
    requires TailStaysLive(ts, k, born, m)
    ensures TailMoves(ts, k, born, m, Walk(ts, k, born))
    decreases |ts| - k, 1
  {
    if k == |ts| {
      assert Walk(ts, k, born) == Tick(ts, 0);
    } else if Expired(ts[k]) {
      WalkTailRemoving(ts, k, born, m);
    } else if k < |ts| - m {
      WalkTailAgeing(ts, k, born, m);
    } else {
      WalkTailInside(ts, k, born, m);
    }
  }

  /** WalkTail's step when the visited triangle expires (it cannot be in the tail). */
  lemma {:induction false} WalkTailRemoving(ts: seq<Shape>, k: nat, born: seq<Shape>, m: nat)
    requires k < |ts| && |ts| - k <= |born| && m <= |ts|
    requires TailStaysLive(ts, k, born, m) && Expired(ts[k])
    ensures TailMoves(ts, k, born, m, Walk(ts, k, born))
    decreases |ts| - k, 0
  {
    var next := ts[..k] + ts[k + 1..] + [born[0]];
    assert k < |ts| - m;
    assert TailStaysLive(next, k + 1, born[1..], m + 1) by {
      forall p | k + 1 <= p < |next| && |next| - (m + 1) <= p
        ensures !Expired(next[p])
      {
        if p < |ts| - 1 {
          assert next[p] == ts[p + 1];
        }
      }
    }
    WalkTail(next, k + 1, born[1..], m + 1);
    var r' := Walk(next, k + 1, born[1..]);
    assert Walk(ts, k, born) == Tick(r'.list, r'.used + 1);
    TailMovesAfterRemoval(ts, k, born, m, r');
  }

  /** TailMoves across one removal: the tail shifts one place left and the
      replacement pushed at the end comes first among the replacements. */
  lemma TailMovesAfterRemoval(ts: seq<Shape>, k: nat, born: seq<Shape>, m: nat, r': Tick)
    requires k < |ts| - m && 0 < |born| && |r'.list| == |ts|
    requires TailMoves(ts[..k] + ts[k + 1..] + [born[0]], k + 1, born[1..], m + 1, r')
    ensures TailMoves(ts, k, born, m, Tick(r'.list, r'.used + 1))
  {
    var next := ts[..k] + ts[k + 1..] + [born[0]];
    var r := Tick(r'.list, r'.used + 1);
    forall p | |ts| - m <= p < |ts|
      ensures AgedAtMostOnce(r.list[p - r.used], ts[p])
    {
      assert next[p - 1] == ts[p];
    }
    forall j | 0 <= j < r.used && j < |born|
      ensures AgedAtMostOnce(r.list[|ts| - r.used + j], born[j])
    {
      if j == 0 {
        assert next[|ts| - 1] == born[0];
      } else {
        assert born[1..][j - 1] == born[j];
      }
    }
  }

  /** WalkTail's step when the visited triangle stays and lies before the tail. */
  lemma {:induction false} WalkTailAgeing(ts: seq<Shape>, k: nat, born: seq<Shape>, m: nat)
    requires k < |ts| - m && |ts| - k <= |born| && m <= |ts|
    requires TailStaysLive(ts, k, born, m) && !Expired(ts[k])
    ensures TailMoves(ts, k, born, m, Walk(ts, k, born))
    decreases |ts| - k, 0
  {
    var next := ts[k := Aged(ts[k])];
    assert TailStaysLive(next, k + 1, born, m);
    WalkTail(next, k + 1, born, m);
    assert Walk(ts, k, born) == Walk(next, k + 1, born);
    TailMovesAfterAgeing(ts, k, born, m, Walk(next, k + 1, born));
  }

  /** TailMoves across ageing an element before the tail: the tail is untouched. */
  lemma TailMovesAfterAgeing(ts: seq<Shape>, k: nat, born: seq<Shape>, m: nat, r: Tick)
    requires k < |ts| - m && |r.list| == |ts|
    requires TailMoves(ts[k := Aged(ts[k])], k + 1, born, m, r)
    ensures TailMoves(ts, k, born, m, r)
  {
    var next := ts[k := Aged(ts[k])];
    forall p | |ts| - m <= p < |ts|
      ensures AgedAtMostOnce(r.list[p - r.used], ts[p])
    {
      assert next[p] == ts[p];
    }
  }

  /** WalkTail's step inside the tail: nothing expires from here on. */
  lemma {:induction false} WalkTailInside(ts: seq<Shape>, k: nat, born: seq<Shape>, m: nat)
    requires |ts| - m <= k < |ts| && |ts| - k <= |born| && m <= |ts|
    requires TailStaysLive(ts, k, born, m)
    ensures TailMoves(ts, k, born, m, Walk(ts, k, born))
    decreases |ts| - k, 0
  {
    var next := ts[k := Aged(ts[k])];
    assert TailStaysLive(next, k + 1, born, |ts| - k - 1);
    WalkTail(next, k + 1, born, |ts| - k - 1);
    WalkKeepsVisited(next, k + 1, born);
    var r := Walk(ts, k, born);
    assert r == Walk(next, k + 1, born);
    assert r.used == 0;
    forall p | |ts| - m <= p < |ts|
      ensures AgedAtMostOnce(r.list[p - r.used], ts[p])
    {
      if p <= k {
        assert r.list[p] == r.list[..k + 1][p] == next[p];
      }
    }
  }

  /** The replacements of a walk whose replacements are not expired (those of
      `createTriangle(true)`) end up at the end of the list, in the order they were
      made, each aged at most once. */
  lemma WalkAppendsReplacements(ts: seq<Shape>, born: seq<Shape>)
    requires |ts| <= |born|
    requires forall j :: 0 <= j < |born| ==> !Expired(born[j])
    ensures var r := Walk(ts, 0, born);
            r.used <= |ts| &&
            forall j :: 0 <= j < r.used ==> AgedAtMostOnce(r.list[|ts| - r.used + j], born[j])
  {
    WalkTail(ts, 0, born, 0);
  }

  /** Two expired triangles side by side: the first is replaced, the second shifts
      into the freed index and is skipped (it stays, expired and not aged), and the
      replacement pushed at the end is aged in the same tick. */
  lemma WalkSkipsShiftedElement(c: CssColor)
    ensures var a := Shape(c, 10.0, 10.0 * SqrtThreeHalves, 0.0, -20.0);
            var b := Shape(c, 20.0, 20.0 * SqrtThreeHalves, 5.0, -30.0);
            var f := Shape(c, 30.0, 30.0 * SqrtThreeHalves, 7.0, 100.0);
            Expired(a) && Expired(b) && !Expired(f) &&
            Walk([a, b], 0, [f, f]) == Tick([b, Aged(f)], 1)
  {
    var a := Shape(c, 10.0, 10.0 * SqrtThreeHalves, 0.0, -20.0);
    var b := Shape(c, 20.0, 20.0 * SqrtThreeHalves, 5.0, -30.0);
    var f := Shape(c, 30.0, 30.0 * SqrtThreeHalves, 7.0, 100.0);
    assert [a, b][..0] + [a, b][1..] + [f] == [b, f];
    assert [f, f][1..] == [f];
    assert Walk([b, f], 1, [f]) == Walk([b, Aged(f)], 2, [f]);
  }
}
