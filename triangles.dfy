/** The objects of src/Triangles.ts: each `Triangle` is an object whose `y` the
    update loop lowers in place, and `Triangles` owns the base colour, the canvas
    size and the list of triangle objects, which `init` refills and
    `updateTriangles` edits while walking it. Drawing on the canvas, the animation
    scheduling and the resize listener are not modelled. */
module Triangles {
  import opened Random
  import opened Color
  import opened Population

  /** One triangle object. The source never reassigns any field but `y` after
      construction, so the others are constants here. */
  class Triangle {
    const color: CssColor
    const width: real
    const height: real
    const x: real
    var y: real

    constructor (color: CssColor, width: real, height: real, x: real, y: real)
      ensures Snapshot() == Shape(color, width, height, x, y)
    {
      this.color := color;
      this.width := width;
      this.height := height;
      this.x := x;
      this.y := y;
    }

    /** The object's current value. */
    function Snapshot(): Shape
      reads this
    {
      Shape(color, width, height, x, y)
    }
  }

  /** No object occurs twice in the list. */
  predicate Distinct(ts: seq<Triangle>) {
    forall i, j :: 0 <= i < j < |ts| ==> ts[i] != ts[j]
  }

  /** `splice(k, 1)` followed by `push(t)` on a list without repeats, with a new
      object `t`: the result has no repeats and no longer holds the removed one. */
  lemma SpliceThenPush(ts: seq<Triangle>, k: nat, t: Triangle)
    requires k < |ts| && Distinct(ts) && t !in ts
    ensures var next := ts[..k] + ts[k + 1..] + [t];
            |next| == |ts| && Distinct(next) && ts[k] !in next &&
            (forall i :: 0 <= i < k ==> next[i] == ts[i]) &&
            (forall i :: k <= i < |ts| - 1 ==> next[i] == ts[i + 1]) &&
            next[|ts| - 1] == t &&
            (forall o :: o in ts && o != ts[k] ==> o in next)
  {
    var next := ts[..k] + ts[k + 1..] + [t];
    forall i, j | 0 <= i < j < |next|
      ensures next[i] != next[j]
    {
      var i' := if i < k then i else i + 1;
      if j < |next| - 1 {
        var j' := if j < k then j else j + 1;
        assert next[i] == ts[i'] && next[j] == ts[j'];
      } else {
        assert next[i] == ts[i'];
      }
    }
    forall o | o in ts && o != ts[k]
      ensures o in next
    {
      var m :| 0 <= m < |ts| && ts[m] == o;
      assert next[if m < k then m else m - 1] == o;
    }
    forall i | 0 <= i < |next| - 1
      ensures next[i] != ts[k]
    {
      assert next[i] == ts[if i < k then i else i + 1];
    }
  }

  /** The effect: the base colour, the density and the list of triangles, with the
      canvas size (`context.canvas.width` and `.height`) that new triangles are
      sized against. */
  class Triangles {
    var baseColor: HSLColor
    const density: nat
    var triangleList: seq<Triangle>
    var width: nat
    var height: nat

    /** The list holds exactly `density` distinct triangle objects. */
    ghost predicate Valid()
      reads this
    {
      |triangleList| == density && Distinct(triangleList)
    }

    /** The current values of the triangles, in list order. */
    ghost function Shapes(): (s: seq<Shape>)
      reads this, triangleList
      ensures Tracks(s)
    {
      var ts := triangleList;
      var s := seq(|ts|, i reads ts requires 0 <= i < |ts| => ts[i].Snapshot());
      assert forall i {:trigger HoldsAt(i, s[i])} :: 0 <= i < |s| ==> HoldsAt(i, s[i]);
      s
    }

    /** `new Triangles(canvas, baseColor, density)`: the base colour from the
        channels, then a list of `density` triangles scattered by `init` (from
        `draws`), then the first frame's `updateTriangles` (from `frame`), which the
        constructor runs directly through `drawFrame` before it returns. No
        scattered triangle is expired, so that walk replaces none and lowers each
        once. (The `changeColor` call the source makes first runs `init` while
        `density` is still undefined, so its loop creates nothing.) */
    constructor (canvasWidth: nat, canvasHeight: nat, red: int, green: int, blue: int,
                 density: nat, draws: seq<Draws>, frame: seq<Draws>)
      requires IsChannel(red) && IsChannel(green) && IsChannel(blue)
      requires density <= |draws| && forall i :: 0 <= i < |draws| ==> IsDraws(draws[i])
      requires density <= |frame| && forall i :: 0 <= i < |frame| ==> IsDraws(frame[i])
      ensures Valid()
      ensures baseColor == ConvertColor(red, green, blue) && this.density == density
      ensures width == canvasWidth && height == canvasHeight
      ensures Shapes() == Walk(Populate(canvasWidth, canvasHeight, baseColor, draws[..density]), 0,
                               Born(canvasWidth, canvasHeight, baseColor, frame)).list
      ensures Shapes() == AgeAll(Populate(canvasWidth, canvasHeight, baseColor, draws[..density]))
      ensures forall o :: o in triangleList ==> fresh(o)
    {
      baseColor := ConvertColor(red, green, blue);
      this.density := density;
      width, height := canvasWidth, canvasHeight;
      triangleList := [];
      new;
      Init(canvasWidth, canvasHeight, draws);
      UpdateTriangles(frame);
      FirstWalkAgesAll(canvasWidth, canvasHeight, baseColor, draws[..density],
                       Born(canvasWidth, canvasHeight, baseColor, frame));
    }

    /** `changeColor(nv)`: a new base colour, then a fresh population on the same
        canvas, so every later triangle's lightness band is centred on the new
        base lightness. */
    method ChangeColor(red: int, green: int, blue: int, draws: seq<Draws>)
      requires IsChannel(red) && IsChannel(green) && IsChannel(blue)
      requires Valid() && density <= |draws|
      modifies this
      ensures Valid()
      ensures baseColor == ConvertColor(red, green, blue)
      ensures width == old(width) && height == old(height)
      ensures Shapes() == Populate(width, height, baseColor, draws[..density])
      ensures forall i :: 0 <= i < density ==> fresh(triangleList[i])
    {
      baseColor := ConvertColor(red, green, blue);
      Init(width, height, draws);
    }

    /** `init(canvas)`, also run on every window resize: take the canvas size, then
        replace every slot of the list with a new scattered triangle. A slot the
        list does not have yet (the constructor's empty array) is added. */
    method Init(canvasWidth: nat, canvasHeight: nat, draws: seq<Draws>)
      requires |triangleList| <= density && density <= |draws|
      modifies this
      ensures Valid()
      ensures width == canvasWidth && height == canvasHeight && baseColor == old(baseColor)
      ensures Shapes() == Populate(canvasWidth, canvasHeight, baseColor, draws[..density])
      ensures forall i :: 0 <= i < density ==> fresh(triangleList[i])
    {
      width, height := canvasWidth, canvasHeight;
      var i := 0;
      while i < density
        invariant 0 <= i <= density
        invariant width == canvasWidth && height == canvasHeight && baseColor == old(baseColor)
        invariant |triangleList| == if i < |old(triangleList)| then |old(triangleList)| else i
        invariant forall a :: 0 <= a < i ==> fresh(triangleList[a])
        invariant forall a :: 0 <= a < i ==>
                    triangleList[a].Snapshot() == NewTriangle(canvasWidth, canvasHeight, baseColor, false, draws[a])
        invariant forall a, b :: 0 <= a < b < i ==> triangleList[a] != triangleList[b]
      {
        var t := CreateTriangle(false, draws[i]);
        if i < |triangleList| {
          triangleList := triangleList[i := t];
        } else {
          triangleList := triangleList + [t];
        }
        i := i + 1;
      }
      var expected := Populate(canvasWidth, canvasHeight, baseColor, draws[..density]);
      assert forall a :: 0 <= a < density ==> Shapes()[a] == expected[a];
    }

    /** `createTriangle(isFromStart)`: a new triangle object sized against the
        canvas and coloured from the base colour. */
    method CreateTriangle(isFromStart: bool, d: Draws) returns (t: Triangle)
      ensures fresh(t)
      ensures t.Snapshot() == NewTriangle(width, height, baseColor, isFromStart, d)
    {
      var s := NewTriangle(width, height, baseColor, isFromStart, d);
      t := new Triangle(s.color, s.width, s.height, s.x, s.y);
    }

    /** The object at index `i` of the list currently has the value `s`. */
    ghost predicate HoldsAt(i: int, s: Shape)
      reads this, triangleList
    {
      0 <= i < |triangleList| && triangleList[i].Snapshot() == s
    }

    /** The list's objects currently have the values `cur`, in order. */
    ghost predicate Tracks(cur: seq<Shape>)
      reads this, triangleList
    {
      |cur| == |triangleList| && forall i {:trigger HoldsAt(i, cur[i])} :: 0 <= i < |cur| ==> HoldsAt(i, cur[i])
    }

    /** `splice(index, 1)` then `push(createTriangle(true))`. */
    method Respawn(index: nat, d: Draws, ghost cur: seq<Shape>) returns (t: Triangle)
      requires Valid() && index < |triangleList| && Tracks(cur)
      modifies this
      ensures Valid()
      ensures baseColor == old(baseColor) && width == old(width) && height == old(height)
      ensures fresh(t) && triangleList == old(triangleList[..index] + triangleList[index + 1..]) + [t]
      ensures old(triangleList[index]) !in triangleList
      ensures forall o :: o in old(triangleList) && o != old(triangleList[index]) ==> o in triangleList
      ensures Tracks(cur[..index] + cur[index + 1..] + [NewTriangle(width, height, baseColor, true, d)])
    {
      ghost var before := triangleList;
      triangleList := triangleList[..index] + triangleList[index + 1..];
      t := CreateTriangle(true, d);
      triangleList := triangleList + [t];
      SpliceThenPush(before, index, t);
      ghost var next := cur[..index] + cur[index + 1..] + [NewTriangle(width, height, baseColor, true, d)];
      forall i | 0 <= i < |next|
        ensures HoldsAt(i, next[i])
      {
        if i < |next| - 1 {
          var j := if i < index then i else i + 1;
          assert old(HoldsAt(j, cur[j]));
          assert triangleList[i] == before[j];
        }
      }
    }

    /** The `forEach` callback of `updateTriangles` at `index`: an expired triangle
        is spliced out of the list and a new one, started at the bottom, pushed on
        the end; either way the visited object is then lowered by a thousandth of
        its height (the removed one too, though it is no longer listed). */
    method VisitTriangle(index: nat, d: Draws, ghost cur: seq<Shape>)
      returns (expired: bool, ghost t: Triangle?, ghost next: seq<Shape>)
      requires Valid() && index < |triangleList| && Tracks(cur)
      modifies this, triangleList[index]
      ensures Valid() && Tracks(next)
      ensures baseColor == old(baseColor) && width == old(width) && height == old(height)
      ensures expired <==> Expired(cur[index])
      ensures next == if expired then cur[..index] + cur[index + 1..] + [NewTriangle(width, height, baseColor, true, d)]
                      else cur[index := Aged(cur[index])]
      ensures old(triangleList[index]).y == old(triangleList[index].y) - old(triangleList[index]).height * 0.001
      ensures !expired ==> triangleList == old(triangleList)
      ensures forall o :: o in triangleList ==> o in old(triangleList) || o == t
      ensures forall o :: o in old(triangleList) && o != old(triangleList[index]) ==> o in triangleList
      ensures expired ==> old(triangleList[index]) !in triangleList && t !in old(triangleList)
      ensures expired ==> (t != null && fresh(t) &&
                           triangleList == old(triangleList[..index] + triangleList[index + 1..]) + [t])
    {
      var el := triangleList[index];
      assert HoldsAt(index, cur[index]);
      expired := el.y < 0.0 - el.height;
      t := null;
      if expired {
        t := Respawn(index, d, cur);
        label Respawned:
        next := cur[..index] + cur[index + 1..] + [NewTriangle(width, height, baseColor, true, d)];
        el.y := el.y - el.height * 0.001;
        assert Tracks(next) by {
          forall i | 0 <= i < |next|
            ensures HoldsAt(i, next[i])
          {
            assert old@Respawned(HoldsAt(i, next[i]));
            assert triangleList[i] != el;
          }
        }
      } else {
        next := cur[index := Aged(cur[index])];
        el.y := el.y - el.height * 0.001;
        assert Tracks(next) by {
          forall i | 0 <= i < |next|
            ensures HoldsAt(i, next[i])
          {
            assert old(HoldsAt(i, cur[i]));
            if i != index {
              assert triangleList[i] != el;
            }
          }
        }
      }
    }

    /** `updateTriangles`: the `forEach` walk over the list, which visits the indices
        the list had when it started and reads each element live. The new values of
        the list are those of Walk from the old values, with the replacements made
        from `draws` in order; every object in the list was already in it or is new. */
    method UpdateTriangles(draws: seq<Draws>)
      requires Valid()
      requires density <= |draws| && forall i :: 0 <= i < |draws| ==> IsDraws(draws[i])
      modifies this, triangleList
      ensures Valid()
      ensures baseColor == old(baseColor) && width == old(width) && height == old(height)
      ensures Shapes() == Walk(old(Shapes()), 0, Born(width, height, baseColor, draws)).list
      ensures forall o :: o in triangleList ==> o in old(triangleList) || fresh(o)
    {
      ghost var bs := Born(width, height, baseColor, draws);
      ghost var start := Shapes();
      var len := |triangleList|;
      var k := 0;
      var used := 0;  // how many draws the replacements have taken
      ghost var cur := start;
      while k < len
        invariant 0 <= used <= k <= len == density
        invariant Valid() && Tracks(cur)
        invariant baseColor == old(baseColor) && width == old(width) && height == old(height)
        invariant WalkFirst(start, bs, k) == Tick(cur, used)
        invariant forall o :: o in triangleList ==> o in old(triangleList) || fresh(o)
      {
        assert triangleList[k] in triangleList;
        WalkFirstStep(start, bs, k, cur, used);
        var expired, t, next := VisitTriangle(k, draws[used], cur);
        if expired {
          used := used + 1;
        }
        cur := next;
        k := k + 1;
      }
      WalkFirstIsWalk(start, bs);
      SameValues(Shapes(), cur);
    }

    /** Two value sequences that both track the list are the same. */
    lemma SameValues(a: seq<Shape>, b: seq<Shape>)
      requires Tracks(a) && Tracks(b)
      ensures a == b
    {
      forall i | 0 <= i < |a|
        ensures a[i] == b[i]
      {
        assert HoldsAt(i, a[i]) && HoldsAt(i, b[i]);
      }
    }
  }
}
