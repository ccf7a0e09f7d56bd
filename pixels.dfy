/**
 * Pixel data as a canvas hands it out (`getImageData`): one RGBA quadruple
 * of bytes per pixel, row by row. Two scans read it: the strip test inside
 * `checkCollision` of src/zCanvas.js, and the packing of
 * `Collision.getPixelArray` of the distribution build, which folds each
 * pixel into one signed 32-bit integer.
 */
module Pixels {
  import opened Wrappers
  import opened Geometry

  type Byte = x: int | 0 <= x < 256

  datatype Rgba = Rgba(r: Byte, g: Byte, b: Byte, a: Byte)

  /**
   * The channel values `checkCollision` is asked to look for: `Some` where
   * the argument is a number, `None` where it is left out.
   */
  datatype Channels = Channels(red: Option<int>, green: Option<int>, blue: Option<int>, alpha: Option<int>)

  /** Whether any channel is asked for at all. */
  predicate AnySpecified(want: Channels) {
    want.red.Some? || want.green.Some? || want.blue.Some? || want.alpha.Some?
  }

  /** Whether pixel `p` holds every channel value that is asked for. */
  predicate Matches(p: Rgba, want: Channels) {
    (want.red.Some? ==> p.r == want.red.value) &&
    (want.green.Some? ==> p.g == want.green.value) &&
    (want.blue.Some? ==> p.b == want.blue.value) &&
    (want.alpha.Some? ==> p.a == want.alpha.value)
  }

  /** Whether `n` fits the signed 32-bit `long` the canvas reads each argument of `getImageData` as. */
  predicate InLongRange(n: int) {
    -TwoTo31 <= n < TwoTo31
  }

  /**
   * Whether `getImageData` over `r` throws. Each argument is truncated toward
   * zero and must fit a `long` (a `TypeError` otherwise, as the arguments are
   * declared `[EnforceRange]`), and a width or height of 0 is an
   * `IndexSizeError`. A negative extent is allowed: it reads the box on the
   * other side of the corner.
   */
  predicate ReadThrows(r: Rect) {
    !InLongRange(Trunc(r.left)) || !InLongRange(Trunc(r.top)) ||
    !InLongRange(Trunc(r.width)) || !InLongRange(Trunc(r.height)) ||
    Trunc(r.width) == 0 || Trunc(r.height) == 0
  }

  /**
   * What the strip test decides for the strip over `r`, whose pixels are
   * `strip`: the loop runs only while its index is below `r.width * r.height * 4`,
   * so a strip of negative area finds nothing; otherwise the first pixel alone
   * settles it, and without any channel asked for nothing is found.
   */
  predicate StripVerdict(r: Rect, strip: seq<Rgba>, want: Channels) {
    r.width * r.height > 0.0 && |strip| > 0 && AnySpecified(want) && Matches(strip[0], want)
  }

  /**
   * `internalCheck` over the box `r`: `getImageData` first (which may throw),
   * then a loop that steps by 4 through the channel values while the index is
   * below `r.width * r.height * 4`, the area as given rather than the pixels
   * read. Each pixel is tested as `CheckPixel` states; one that settles the
   * answer returns it. A pixel with no channel asked for leaves the loop
   * going, so such a strip ends false.
   */
  method InternalCheck(r: Rect, strip: seq<Rgba>, want: Channels) returns (found: bool, threw: bool)
    ensures threw <==> ReadThrows(r)
    ensures !threw ==> found == StripVerdict(r, strip, want)
    ensures threw ==> !found
  {
    if ReadThrows(r) {
      return false, true;
    }
    threw := false;
    var area := r.width * r.height;
    var l := area * 4.0;
    assert StripVerdict(r, strip, want) <==> area > 0.0 && |strip| > 0 && AnySpecified(want) && Matches(strip[0], want);
    var i := 0;
    while (i as real) < l
      invariant 0 <= i
      invariant i > 0 ==> !AnySpecified(want) && area > 0.0
      decreases if l <= 0.0 then 0 else l.Floor + 4 - i
    {
      var p := if i / 4 < |strip| then Some(strip[i / 4]) else None;
      var settled := CheckPixel(p, want);
      if settled.Some? {
        return settled.value, false;
      }
      i := i + 4;
    }
    return false, false;
  }

  /**
   * One turn of the loop of `internalCheck` over the pixel `p` (`None` past
   * the end of the data, where every channel reads `undefined`): each channel
   * asked for is compared in the order red, green, blue, alpha and the first
   * mismatch settles `false`; a pixel that matched settles `true`; with no
   * channel asked for nothing is settled.
   */
  method CheckPixel(p: Option<Rgba>, want: Channels) returns (settled: Option<bool>)
    ensures settled.None? <==> !AnySpecified(want)
    ensures settled.Some? ==> settled.value == (p.Some? && Matches(p.value, want))
  {
    var matched := false;
    if want.red.Some? {
      matched := p.Some? && p.value.r == want.red.value;
      if !matched {
        return Some(false);
      }
    }
    if want.green.Some? {
      matched := p.Some? && p.value.g == want.green.value;
      if !matched {
        return Some(false);
      }
    }
    if want.blue.Some? {
      matched := p.Some? && p.value.b == want.blue.value;
      if !matched {
        return Some(false);
      }
    }
    if want.alpha.Some? {
      matched := p.Some? && p.value.a == want.alpha.value;
      if !matched {
        return Some(false);
      }
    }
    if matched {
      return Some(true);
    }
    return None;
  }

  /**
   * The result code of `checkCollision` from its two verdicts: 0 for none,
   * 1 for horizontal only, 2 for vertical only, 3 for both.
   */
  function ResultCode(horizontal: bool, vertical: bool): (code: int)
    ensures 0 <= code <= 3
    ensures code == 0 <==> !horizontal && !vertical
    ensures horizontal <==> code == 1 || code == 3
    ensures vertical <==> code == 2 || code == 3
  {
    if !horizontal && !vertical then 0
    else if horizontal then (if vertical then 3 else 1)
    else 2
  }

  /** A coordinate or extent argument of `checkCollision`: a falsy one (absent or 0) takes `fallback`. */
  function OrDefault(v: Option<real>, fallback: real): (r: real)
    ensures v.Some? && v.value != 0.0 ==> r == v.value
    ensures v.None? || v.value == 0.0 ==> r == fallback
  {
    if v.Some? && v.value != 0.0 then v.value else fallback
  }

  /** The four strips `checkCollision` reads around a sprite. */
  datatype Probes = Probes(toLeft: Rect, below: Rect, toRight: Rect, above: Rect)

  /**
   * The strips as `checkCollision` places them around the sprite box at
   * `(x, y)` of size `sw` by `sh`, with strip thickness `w` and `h`: the
   * left and upper strips touch the sprite, but the right and lower ones
   * start a thickness away from its edge, so that a gap as wide as the
   * strip separates them from the sprite.
   */
  function ProbesAsWritten(x: real, y: real, w: real, h: real, sw: real, sh: real): (p: Probes)
    ensures var box := Rect(x, y, sw, sh);
            p.toLeft.Right() == box.left && p.above.Bottom() == box.top &&
            p.toRight.left == box.Right() + w && p.below.top == box.Bottom() + h
    ensures Beside(p, Rect(x, y, sw, sh), w, h)
    ensures w >= 0.0 && h >= 0.0 && sw >= 0.0 && sh >= 0.0 ==>
              Abuts(p.toLeft, Rect(x, y, sw, sh)) && Abuts(p.above, Rect(x, y, sw, sh))
    ensures w > 0.0 ==> !ClosedOverlap(p.toRight, Rect(x, y, sw, sh))
    ensures h > 0.0 ==> !ClosedOverlap(p.below, Rect(x, y, sw, sh))
  {
    Probes(Rect(x - w, y, w, sh), Rect(x, y + sh + h, sw, h), Rect(x + sw + w, y, w, sh), Rect(x, y - h, sw, h))
  }

  /**
   * The strips as the documentation of `checkCollision` describes them: each
   * one lies against its side of the sprite box, sharing that edge without
   * overlapping the sprite.
   */
  function ProbesAround(x: real, y: real, w: real, h: real, sw: real, sh: real): (p: Probes)
    ensures var box := Rect(x, y, sw, sh);
            p.toLeft.Right() == box.left && p.above.Bottom() == box.top &&
            p.toRight.left == box.Right() && p.below.top == box.Bottom()
    ensures Beside(p, Rect(x, y, sw, sh), w, h)
    ensures w >= 0.0 && h >= 0.0 && sw >= 0.0 && sh >= 0.0 ==>
              var box := Rect(x, y, sw, sh);
              Abuts(p.toLeft, box) && Abuts(p.toRight, box) && Abuts(p.above, box) && Abuts(p.below, box)
  {
    Probes(Rect(x - w, y, w, sh), Rect(x, y + sh, sw, h), Rect(x + sw, y, w, sh), Rect(x, y - h, sw, h))
  }

  /**
   * The side strips of `p` span the height of `box` and are `w` wide; the
   * upper and lower strips span its width and are `h` high.
   */
  predicate Beside(p: Probes, box: Rect, w: real, h: real) {
    p.toLeft.top == p.toRight.top == box.top && p.toLeft.height == p.toRight.height == box.height &&
    p.toLeft.width == p.toRight.width == w &&
    p.above.left == p.below.left == box.left && p.above.width == p.below.width == box.width &&
    p.above.height == p.below.height == h
  }

  /**
   * With strips at least one pixel thick, the right and lower strips as
   * written miss the column and the row of pixels next to the sprite; the
   * strips that touch the sprite cover them.
   */
  lemma ProbesAsWrittenSkipEdge(x: real, y: real, w: real, h: real, sw: real, sh: real)
    requires w >= 1.0 && h >= 1.0 && sw > 0.0 && sh > 0.0
    ensures var column, row := Rect(x + sw, y, 1.0, sh), Rect(x, y + sh, sw, 1.0);
            !StrictOverlap(ProbesAsWritten(x, y, w, h, sw, sh).toRight, column) &&
            !StrictOverlap(ProbesAsWritten(x, y, w, h, sw, sh).below, row) &&
            StrictOverlap(ProbesAround(x, y, w, h, sw, sh).toRight, column) &&
            StrictOverlap(ProbesAround(x, y, w, h, sw, sh).below, row)
  {
  }

  /**
   * A red pixel just right of a 10 by 10 sprite at the origin: the strips as
   * written report nothing, the touching strips a horizontal collision.
   */
  lemma ProbesAsWrittenMissRedEdge()
    ensures var want := Channels(Some(255), None, None, None);
            var image := (r: Rect) => if r.left == 10.0 then [Rgba(255, 0, 0, 255)] else [];
            StripCode(ProbesAsWritten(0.0, 0.0, 1.0, 1.0, 10.0, 10.0), image, want) == 0 &&
            StripCode(ProbesAround(0.0, 0.0, 1.0, 1.0, 10.0, 10.0), image, want) == 1
  {
  }

  /**
   * What `checkCollision` decides from the strips `p` and the pixels
   * `image` shows over each: horizontal from the left or right strip,
   * vertical from the lower or upper one.
   */
  function StripCode(p: Probes, image: Rect -> seq<Rgba>, want: Channels): (code: int)
    ensures 0 <= code <= 3
    ensures !AnySpecified(want) ==> code == 0
    ensures code == 1 || code == 3 <==>
              StripVerdict(p.toLeft, image(p.toLeft), want) || StripVerdict(p.toRight, image(p.toRight), want)
    ensures code == 2 || code == 3 <==>
              StripVerdict(p.below, image(p.below), want) || StripVerdict(p.above, image(p.above), want)
  {
    ResultCode(StripVerdict(p.toLeft, image(p.toLeft), want) || StripVerdict(p.toRight, image(p.toRight), want),
               StripVerdict(p.below, image(p.below), want) || StripVerdict(p.above, image(p.above), want))
  }

  /**
   * Whether `checkCollision` throws over the strips `p`: the left and lower
   * strips are always read, the right one only when the left found nothing,
   * the upper one only when the lower found nothing.
   */
  predicate StripsThrow(p: Probes, image: Rect -> seq<Rgba>, want: Channels) {
    ReadThrows(p.toLeft) || ReadThrows(p.below) ||
    (!StripVerdict(p.toLeft, image(p.toLeft), want) && ReadThrows(p.toRight)) ||
    (!StripVerdict(p.below, image(p.below), want) && ReadThrows(p.above))
  }

  /**
   * Where every strip's corner and the sizes fit a `long`, `checkCollision`
   * throws exactly when a thickness or a side of the sprite truncates to 0.
   */
  lemma StripsThrowOnZeroExtent(x: real, y: real, w: real, h: real, sw: real, sh: real, image: Rect -> seq<Rgba>,
                                want: Channels)
    requires var p := ProbesAsWritten(x, y, w, h, sw, sh);
             InLongRange(Trunc(w)) && InLongRange(Trunc(h)) && InLongRange(Trunc(sw)) && InLongRange(Trunc(sh)) &&
             forall r :: r in [p.toLeft, p.below, p.toRight, p.above] ==> InLongRange(Trunc(r.left)) && InLongRange(Trunc(r.top))
    ensures StripsThrow(ProbesAsWritten(x, y, w, h, sw, sh), image, want) <==>
              Trunc(w) == 0 || Trunc(h) == 0 || Trunc(sw) == 0 || Trunc(sh) == 0
  {
  }

  const TwoTo8: int := 0x100
  const TwoTo16: int := 0x1_0000
  const TwoTo24: int := 0x100_0000
  const TwoTo31: int := 0x8000_0000
  const TwoTo32: int := 0x1_0000_0000

  /** The bit pattern `a << 24 | r << 16 | g << 8 | b` as an unsigned number. */
  function Word(p: Rgba): (w: int)
    ensures 0 <= w < TwoTo32
  {
    p.a * TwoTo24 + p.r * TwoTo16 + p.g * TwoTo8 + p.b
  }

  /**
   * The packed pixel of `getPixelArray`. JavaScript's shift and or work on
   * signed 32-bit integers, so an alpha of 128 or more gives a negative
   * number.
   */
  function Pack(p: Rgba): (v: int)
    ensures -TwoTo31 <= v < TwoTo31
    ensures v == 0 <==> p.r == 0 && p.g == 0 && p.b == 0 && p.a == 0
    ensures v < 0 <==> p.a >= 128
  {
    var w := Word(p);
    if w >= TwoTo31 then w - TwoTo32 else w
  }

  /** The four bytes of a signed 32-bit word, read back in the layout `Pack` writes. */
  function Unpack(v: int): (p: Rgba)
    requires -TwoTo31 <= v < TwoTo31
  {
    var w := if v < 0 then v + TwoTo32 else v;
    Rgba((w / TwoTo16) % 256, (w / TwoTo8) % 256, w % 256, w / TwoTo24)
  }

  /** Packing loses nothing: every pixel is read back from its word. */
  lemma UnpackPack(p: Rgba)
    ensures Unpack(Pack(p)) == p
  {
    var w := Word(p);
    assert (if Pack(p) < 0 then Pack(p) + TwoTo32 else Pack(p)) == w;
    WordDigits(p.a, p.r, p.g, p.b);
  }

  /** The base-256 digits of a four-digit number. */
  lemma WordDigits(a: Byte, r: Byte, g: Byte, b: Byte)
    ensures var w := a * TwoTo24 + r * TwoTo16 + g * TwoTo8 + b;
            w / TwoTo24 == a && (w / TwoTo16) % 256 == r && (w / TwoTo8) % 256 == g && w % 256 == b
  {
    var w := a * TwoTo24 + r * TwoTo16 + g * TwoTo8 + b;
    DivPlus(a, r * TwoTo16 + g * TwoTo8 + b, TwoTo24);
    assert w == (a * TwoTo8 + r) * TwoTo16 + (g * TwoTo8 + b);
    DivPlus(a * TwoTo8 + r, g * TwoTo8 + b, TwoTo16);
    DivPlus(a, r, 256);
    assert w == (a * TwoTo16 + r * TwoTo8 + g) * TwoTo8 + b;
    DivPlus(a * TwoTo16 + r * TwoTo8 + g, b, TwoTo8);
    assert a * TwoTo16 + r * TwoTo8 + g == (a * TwoTo8 + r) * 256 + g;
    DivPlus(a * TwoTo8 + r, g, 256);
  }

  /** Division by `d` of `q * d + r` with a remainder `r` below `d`. */
  lemma DivPlus(q: int, r: int, d: int)
    requires d > 0 && 0 <= r < d
    ensures (q * d + r) / d == q && (q * d + r) % d == r
  {
    var x := q * d + r;
    var k, m := x / d, x % d;
    assert (k - q) * d == r - m;
    if k > q {
      MulAtLeast(k - q, d);
    } else if k < q {
      MulAtLeast(q - k, d);
    }
  }

  /** A positive multiple of `d` is at least `d`. */
  lemma MulAtLeast(n: int, d: int)
    requires n >= 1 && d > 0
    ensures n * d >= d
  {
    assert n * d == (n - 1) * d + d;
    assert (n - 1) * d >= 0;
  }
}
