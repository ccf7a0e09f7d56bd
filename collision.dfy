/**
 * The `Collision` module of the distribution build: pixel-exact collision
 * of two sprites over the box they share, the packed pixel arrays that test
 * compares, and the box query over any list of sprites.
 *
 * A sprite's bitmap is drawn into a scratch canvas and read back with
 * `getImageData`; here the pixels read back over the shared box are an
 * input, one `Rgba` per pixel, row by row.
 */
module Collision {
  import opened Geometry
  import opened Pixels
  import Scene

  /**
   * What `pixelCollision` answers: `false`, `true`, or the point `{x, y}` it
   * found; `Threw` is the `RangeError` of an array of negative length.
   */
  datatype PixelHit = Miss | Overlap | HitAt(x: nat, y: nat) | Threw

  const Blank: Rgba := Rgba(0, 0, 0, 0)

  /**
   * Whether `parseInt` reads the size `x` as a negative number: from -1 down,
   * and also just below 0, where the string form `-5e-7` reads -5.
   */
  predicate ReadsNegative(x: real) {
    x <= -1.0 || -PlainLow < x < 0.0
  }

  /**
   * One extent of the region `getPixelArray` reads: `parseInt` of it, with 0
   * read as 1 (so is the `-0` of a small negative extent such as -0.5). Its
   * values are those `ExtentValues` states.
   */
  function Extent(x: real): (n: int)
    ensures n != 0
    ensures n < 0 <==> ReadsNegative(x)
  {
    var n := ParseIntOfNumber(x);
    if n == 0 then 1 else n
  }

  /**
   * The extent of a plain-form size is its integer part, and 1 for a size
   * between -1 and 1; an exponent-form size reads one digit, with its sign.
   */
  lemma ExtentValues(x: real)
    ensures 1.0 <= x < PlainHigh ==> Extent(x) as real <= x < Extent(x) as real + 1.0
    ensures -PlainHigh < x <= -1.0 ==> Extent(x) as real - 1.0 < x <= Extent(x) as real
    ensures -1.0 < x < 1.0 && (x == 0.0 || x >= PlainLow || x <= -PlainLow) ==> Extent(x) == 1
    ensures 0.0 < x < PlainLow || x >= PlainHigh ==> 1 <= Extent(x) <= 9
    ensures -PlainLow < x < 0.0 || x <= -PlainHigh ==> -9 <= Extent(x) <= -1
  {
  }

  /**
   * The length `getPixelArray` asks of its array for the box `o`: the pixels
   * of the region when positive; negative when exactly one extent reads
   * negative.
   */
  function Cells(o: Rect): (n: int)
    ensures n != 0
    ensures n > 0 <==> (ReadsNegative(o.width) <==> ReadsNegative(o.height))
    ensures !ReadsNegative(o.width) && !ReadsNegative(o.height) ==> n >= 1
  {
    var a, d := Extent(o.width), Extent(o.height);
    ProductSign(a, d);
    a * d
  }

  /** The sign of a product of two non-zero integers. */
  lemma ProductSign(a: int, d: int)
    requires a != 0 && d != 0
    ensures a * d != 0 && (a * d > 0 <==> (a < 0 <==> d < 0))
  {
    if a > 0 && d > 0 {
      MulAtLeast(a, d);
    } else if a < 0 && d < 0 {
      MulAtLeast(-a, -d);
      assert a * d == (-a) * (-d);
    } else if a > 0 {
      MulAtLeast(a, -d);
      assert a * d == -(a * (-d));
    } else {
      MulAtLeast(-a, d);
      assert a * d == -((-a) * d);
    }
  }

  /**
   * How many times a loop `for (k = 0; k < x; ++k)` runs: the naturals below
   * the real bound `x`.
   */
  function Steps(x: real): (n: nat)
    ensures forall k: nat {:trigger k as real} :: k < n <==> (k as real) < x
  {
    if x <= 0.0 then 0
    else if x.Floor as real == x then x.Floor
    else x.Floor + 1
  }

  /**
   * Whether the pixel at index `h` of an array counts as set in the
   * point-finding scan: a pixel with any non-zero channel, or an index past
   * the end, where JavaScript reads `undefined`, which is not `0`.
   */
  predicate Lit(pixels: seq<Rgba>, h: nat) {
    h >= |pixels| || pixels[h] != Blank
  }

  /**
   * `getPixelArray`: the pixels of the region packed one word each, row by
   * row. `getImageData` always hands back the whole region, so `data` holds
   * exactly `Cells(o)` pixels; a negative `Cells(o)` makes `new Array` throw
   * (`threw`). Both extents read negative are left out (see the README).
   */
  method GetPixelArray(o: Rect, data: seq<Rgba>) returns (g: array<int>, threw: bool)
    requires !ReadsNegative(o.width) || !ReadsNegative(o.height)
    requires Cells(o) > 0 ==> |data| == Cells(o)
    ensures threw <==> Cells(o) < 0
    ensures !threw ==> g.Length == |data|
    ensures !threw ==> forall k :: 0 <= k < g.Length ==> g[k] == Pack(data[k])
    ensures !threw ==> forall k :: 0 <= k < g.Length ==> (g[k] == 0 <==> data[k] == Blank)
  {
    var a := Extent(o.width);
    var d := Extent(o.height);
    if a * d < 0 {
      return new int[0], true;
    }
    threw := false;
    ProductSign(a, d);
    g := PackGrid(a, d, data);
  }

  /** The loops of `getPixelArray`: `d` rows of `a` pixels, one packed word each, row by row. */
  method PackGrid(a: int, d: int, data: seq<Rgba>) returns (g: array<int>)
    requires a > 0 && d > 0 && |data| == a * d
    ensures g.Length == |data|
    ensures forall k :: 0 <= k < g.Length ==> g[k] == Pack(data[k])
  {
    g := new int[a * d];
    var k := 0;
    var m := 0;
    while m < d
      invariant 0 <= m <= d && k == m * a && k <= |data|
      invariant forall j :: 0 <= j < k ==> g[j] == Pack(data[j])
    {
      RowMajorBound(m, 0, a, d);
      var v := 0;
      while v < a
        invariant 0 <= v <= a && k == m * a + v && k <= |data|
        invariant forall j :: 0 <= j < k ==> g[j] == Pack(data[j])
      {
        var y := m * a + v;
        RowMajorBound(m, v, a, d);
        g[k] := Pack(data[y]);
        k := k + 1;
        v := v + 1;
      }
      assert k == (m + 1) * a;
      m := m + 1;
    }
    assert k == a * d;
  }

  /** A row-major index inside a grid of `d` rows of `a` cells lies inside it. */
  lemma RowMajorBound(m: int, v: int, a: int, d: int)
    requires 0 <= m < d && 0 <= v < a
    ensures 0 <= m * a + v < a * d
  {
    assert m * a + v < (m + 1) * a;
    assert (m + 1) * a <= d * a;
  }

  /** Whether the scan finds index `j` set in both arrays. */
  predicate Common(ts: seq<Rgba>, es: seq<Rgba>, j: nat) {
    Lit(ts, j) && Lit(es, j)
  }

  /** No index below `n` is set in both arrays. */
  predicate NoneBefore(ts: seq<Rgba>, es: seq<Rgba>, n: int) {
    forall j: nat :: j < n ==> !Common(ts, es, j)
  }

  /** The packed array `g` holds the words of `pixels`, so its zeros are the blank pixels. */
  ghost predicate PackedOf(g: array<int>, pixels: seq<Rgba>)
    reads g
  {
    g.Length == |pixels| && forall k :: 0 <= k < g.Length ==> (g[k] == 0 <==> pixels[k] == Blank)
  }

  /**
   * `pixelCollision(t, e, returnPoint)` over the pixels `ts` and `es` the two
   * sprites show inside the box `getIntersection` returns, as written (see
   * `Scene.Sprite.GetIntersectionAsWritten`). Without a box it is false;
   * with one, the answer is that of `CollideIn` over it.
   */
  method PixelCollision(t: Scene.Sprite, e: Scene.Sprite, returnPoint: bool, ts: seq<Rgba>, es: seq<Rgba>)
      returns (hit: PixelHit)
    requires t.width >= 0.0 && t.height >= 0.0 && e.width >= 0.0 && e.height >= 0.0
    requires t.GetIntersectionAsWritten(e).Some? && Cells(t.GetIntersectionAsWritten(e).value) > 0 ==>
               |ts| == |es| == Cells(t.GetIntersectionAsWritten(e).value)
    ensures t.GetIntersectionAsWritten(e).None? ==> hit == Miss
    ensures t.GetIntersectionAsWritten(e).Some? ==> Collides(t.GetIntersectionAsWritten(e).value, returnPoint, ts, es, hit)
  {
    var found := t.GetIntersectionAsWritten(e);
    if found.None? {
      return Miss;
    }
    hit := CollideIn(found.value, returnPoint, ts, es);
  }

  /**
   * `pixelCollision` as evidently intended: over the box the two sprites
   * really share (`Scene.Sprite.GetIntersection`), which never throws.
   * Without a shared box it is false; with one, the answer is that of
   * `CollideIn` over it.
   */
  method PixelCollisionShared(t: Scene.Sprite, e: Scene.Sprite, returnPoint: bool, ts: seq<Rgba>, es: seq<Rgba>)
      returns (hit: PixelHit)
    requires t.width >= 0.0 && t.height >= 0.0 && e.width >= 0.0 && e.height >= 0.0
    requires t.GetIntersection(e).Some? ==> |ts| == |es| == Cells(t.GetIntersection(e).value)
    ensures hit != Threw
    ensures t.GetIntersection(e).None? ==> hit == Miss
    ensures t.GetIntersection(e).Some? ==> Collides(t.GetIntersection(e).value, returnPoint, ts, es, hit)
  {
    var found := t.GetIntersection(e);
    if found.None? {
      return Miss;
    }
    assert Inside(found.value, t.Bounds());
    hit := CollideIn(found.value, returnPoint, ts, es);
  }

  /**
   * What `pixelCollision` answers over the box `o`: it throws iff the width
   * reads negative, as `new Array` then gets a negative length. Otherwise,
   * without `returnPoint`, it is true exactly when some pixel is set in
   * both; with `returnPoint` it walks the box's rows and columns in row-major
   * order and returns the first point set in both, where an index past the
   * arrays counts as set, or false when there is none.
   */
  ghost predicate Collides(o: Rect, returnPoint: bool, ts: seq<Rgba>, es: seq<Rgba>, hit: PixelHit) {
    (hit == Threw <==> ReadsNegative(o.width)) &&
    (!returnPoint && hit != Threw ==> (hit == Overlap <==> exists k :: 0 <= k < |ts| && k < |es| && ts[k] != Blank && es[k] != Blank)) &&
    (!returnPoint ==> !hit.HitAt?) &&
    (returnPoint ==> hit != Overlap) &&
    (hit.HitAt? ==>
       var cols := Steps(o.width);
       hit.x < cols && hit.y < Steps(o.height) &&
       Common(ts, es, hit.y * cols + hit.x) && NoneBefore(ts, es, hit.y * cols + hit.x)) &&
    (returnPoint && hit == Miss ==> NoneBefore(ts, es, Steps(o.height) * Steps(o.width)))
  }

  /** The body of `pixelCollision` once it has the box `o`: both pixel arrays, then the scan. */
  method CollideIn(o: Rect, returnPoint: bool, ts: seq<Rgba>, es: seq<Rgba>) returns (hit: PixelHit)
    requires !ReadsNegative(o.height)
    requires Cells(o) > 0 ==> |ts| == |es| == Cells(o)
    ensures Collides(o, returnPoint, ts, es, hit)
  {
    var s, threw := GetPixelArray(o, ts);
    if threw {
      return Threw;
    }
    var r, _ := GetPixelArray(o, es);
    if returnPoint {
      hit := FirstPoint(s, r, ts, es, o.width, o.height);
    } else {
      hit := AnyCommon(s, r, ts, es);
    }
  }

  /**
   * The scan of `pixelCollision` with `returnPoint`: rows `a < height`,
   * columns `d < width`, one index per cell in row-major order, and the
   * first index set in both arrays gives the point `{x: d, y: a}`.
   */
  method FirstPoint(s: array<int>, r: array<int>, ts: seq<Rgba>, es: seq<Rgba>, width: real, height: real)
      returns (hit: PixelHit)
    requires PackedOf(s, ts) && PackedOf(r, es)
    ensures hit.Miss? || hit.HitAt?
    ensures hit.HitAt? ==>
              var cols := Steps(width);
              hit.x < cols && hit.y < Steps(height) &&
              Common(ts, es, hit.y * cols + hit.x) && NoneBefore(ts, es, hit.y * cols + hit.x)
    ensures hit == Miss ==> NoneBefore(ts, es, Steps(height) * Steps(width))
  {
    ghost var cols := Steps(width);
    ghost var rows := Steps(height);
    var h := 0;
    var a := 0;
    while (a as real) < height
      invariant 0 <= a <= rows && h == a * cols
      invariant NoneBefore(ts, es, h)
      decreases rows - a
    {
      var d := 0;
      while (d as real) < width
        invariant 0 <= d <= cols && h == a * cols + d
        invariant NoneBefore(ts, es, h)
        decreases cols - d
      {
        var sv := if h < s.Length then s[h] != 0 else true;
        var rv := if h < r.Length then r[h] != 0 else true;
        if sv && rv {
          return HitAt(d, a);
        }
        h := h + 1;
        d := d + 1;
      }
      assert h == (a + 1) * cols;
      a := a + 1;
    }
    assert rows * cols == a * cols;
    return Miss;
  }

  /**
   * The scan of `pixelCollision` without `returnPoint`: true at the first
   * index whose words are non-zero in both arrays.
   */
  method AnyCommon(s: array<int>, r: array<int>, ts: seq<Rgba>, es: seq<Rgba>) returns (hit: PixelHit)
    requires PackedOf(s, ts) && PackedOf(r, es) && |ts| == |es|
    ensures hit == Miss || hit == Overlap
    ensures hit == Overlap <==> exists k :: 0 <= k < |ts| && ts[k] != Blank && es[k] != Blank
  {
    var h := 0;
    while h < s.Length
      invariant 0 <= h <= s.Length
      invariant forall j :: 0 <= j < h ==> !(ts[j] != Blank && es[j] != Blank)
    {
      if s[h] != 0 && r[h] != 0 {
        return Overlap;
      }
      h := h + 1;
    }
    return Miss;
  }

  /**
   * `getChildrenUnderPoint(list, x, y, w, h, onlyCollidables)`: the sprites
   * of `list` whose box strictly overlaps the query box, collectable ones
   * only when asked, from the last to the first.
   */
  method GetChildrenUnderPoint(list: seq<Scene.Sprite>, x: real, y: real, w: real, h: real, onlyCollidables: bool)
      returns (out: seq<Scene.Sprite>)
    ensures out == Scene.UnderPoint(list, Rect(x, y, w, h), onlyCollidables)
  {
    ghost var q := Rect(x, y, w, h);
    out := [];
    var i := |list|;
    while i > 0
      invariant 0 <= i <= |list|
      invariant out == Scene.UnderPoint(list[i..], q, onlyCollidables)
    {
      i := i - 1;
      var a := list[i];
      Scene.UnderPointFront(list, i, q, onlyCollidables);
      if a.left < x + w && a.left + a.width > x && a.top < y + h && a.top + a.height > y {
        if !onlyCollidables || (onlyCollidables && a.collidable) {
          out := out + [a];
        }
      }
    }
    assert list[0..] == list;
  }

  /**
   * The boxes of `Scene.IntersectionWidthWitness`, a size-10 box at the origin
   * and a size-2 box at (5, 5): the width `getIntersection` writes is -1, so
   * `pixelCollision` throws, where the shared 2 by 2 box is tested.
   */
  method NegativeWidthWitness() returns (asWritten: PixelHit, shared: PixelHit)
    ensures asWritten == Threw && shared != Threw
  {
    var a, b := Scene.IntersectionWidthWitness();
    asWritten := PixelCollision(a, b, false, [], []);
    var clear := [Blank, Blank, Blank, Blank];
    shared := PixelCollisionShared(a, b, false, clear, clear);
  }
}
