/**
 * The generation of the scene graph made of the stage of src/zCanvas.js and
 * the `Sprite` of the distribution build (dist/zcanvas.amd.js). The stage
 * hands itself to its children with `setCanvas` and `setParent`, and a sprite
 * calls back into its canvas (`invalidate`) and its parent (`removeChild`),
 * so the two classes live in one module.
 *
 * A sprite's `_parent` is either another sprite or the stage; `Parent` says
 * which. Operations that recurse through a sprite's descendants take a ghost
 * `scene` (a set of sprites closed under `children` in which the sprite is a
 * root) and hand the scene without the caller to each recursive call.
 */
module Scene {
  import opened Wrappers
  import opened Geometry
  import opened Events
  import Pixels

  /** What a sprite's `_parent` refers to. */
  datatype Parent = Detached | InSprite(sprite: Sprite) | OnStage(stage: Stage)

  /**
   * One animation of a sprite sheet: the row of the sheet, the first column,
   * the number of frames, the ticks each frame is shown for (`fpt`) and
   * whether an `onComplete` callback is attached.
   */
  datatype SheetEntry = SheetEntry(row: int, col: int, amount: int, fpt: int, onComplete: bool)

  /**
   * The `_animation` record: the sheet entry playing (`type`, absent after a
   * switch to an index the sheet lacks), the current column, the last column,
   * the ticks per frame, the tick counter and whether a callback is attached.
   */
  datatype Animation = Animation(kind: Option<SheetEntry>, col: int, maxCol: int, fpt: int, counter: int,
                                 onComplete: bool)
  {
    /** The column stays in the frames of the entry playing (or at its start when it has none). */
    predicate InRange() {
      kind.Some? && kind.value.col <= col && (col <= maxCol || col == kind.value.col)
    }
  }

  /** The x offset `setX` adds for a constraint. */
  function ConstraintLeft(c: Option<Rect>): real {
    if c.Some? then c.value.left else 0.0
  }

  /** The y offset `setY` adds for a constraint. */
  function ConstraintTop(c: Option<Rect>): real {
    if c.Some? then c.value.top else 0.0
  }

  class Sprite {
    var left: real
    var top: real
    var width: real
    var height: real
    /** `_constraint`: the rectangle the sprite's position is relative to and kept in. */
    var constraint: Option<Rect>
    var collidable: bool
    var hover: bool
    var draggable: bool
    var interactive: bool
    var keepInBounds: bool
    var isDragging: bool
    var dragStartTime: int
    var dragStartOffset: Point
    var dragStartEvent: Point
    var sheet: seq<SheetEntry>
    var animation: Option<Animation>
    /** `_children`: the display list, bottom first. */
    var children: seq<Sprite>
    /** Intrusive links to the previous and next sibling in the container. */
    var last: Sprite?
    var next: Sprite?
    var parent: Parent
    var canvas: Stage?
    var disposed: bool

    /** The numeric form of the constructor (no bitmap, no sheet). */
    constructor (x: real, y: real, w: real, h: real, isCollidable: bool)
      ensures left == x && top == y && width == w && height == h
      ensures collidable == isCollidable && children == [] && constraint == None && animation == None
      ensures last == null && next == null && parent == Detached && canvas == null
      ensures !draggable && !interactive && !keepInBounds && !isDragging && !hover && !disposed
    {
      left, top, width, height := x, y, w, h;
      constraint := None;
      collidable := isCollidable;
      children := [];
      last, next, parent, canvas := null, null, Detached, null;
      hover, draggable, interactive, keepInBounds, isDragging, disposed := false, false, false, false, false, false;
      dragStartTime := 0;
      dragStartOffset, dragStartEvent := Point(0.0, 0.0), Point(0.0, 0.0);
      sheet, animation := [], None;
    }

    function Bounds(): Rect
      reads this
    {
      Rect(left, top, width, height)
    }

    /** `setDraggable`: dragging on implies interaction on. */
    method SetDraggable(value: bool, keep: bool)
      modifies this`draggable, this`keepInBounds, this`interactive
      ensures draggable == value && keepInBounds == keep
      ensures interactive == (old(interactive) || value)
    {
      draggable := value;
      keepInBounds := keep;
      if value && !interactive {
        interactive := true;
      }
    }

    /**
     * `setWidth`: the new width replaces the old one; when the old one was
     * non-zero the sprite moves so that its centre stays put (no cascade to
     * the children).
     */
    method SetWidth(w: real)
      modifies this`left, this`width
      ensures width == w
      ensures old(width) != 0.0 ==> left + w * 0.5 == old(left) + old(width) * 0.5
      ensures old(width) == 0.0 ==> left == old(left)
    {
      var previous := width;
      width := w;
      if previous != 0.0 {
        left := left - (w * 0.5 - previous * 0.5);
      }
    }

    /** `setHeight`: the vertical counterpart of `setWidth`. */
    method SetHeight(h: real)
      modifies this`top, this`height
      ensures height == h
      ensures old(height) != 0.0 ==> top + h * 0.5 == old(top) + old(height) * 0.5
      ensures old(height) == 0.0 ==> top == old(top)
    {
      var previous := height;
      height := h;
      if previous != 0.0 {
        top := top - (h * 0.5 - previous * 0.5);
      }
    }

    /**
     * `setConstraint`: records the rectangle, moves the sprite inside its
     * top-left corner if it lies left of or above it, switches keep-in-bounds
     * on and returns the rectangle.
     */
    method SetConstraint(l: real, t: real, w: real, h: real) returns (r: Rect)
      modifies this`constraint, this`left, this`top, this`keepInBounds
      ensures r == Rect(l, t, w, h) && constraint == Some(r) && keepInBounds
      ensures left >= l && top >= t
      ensures old(left) >= l ==> left == old(left)
      ensures old(left) < l ==> left == l
      ensures old(top) >= t ==> top == old(top)
      ensures old(top) < t ==> top == t
    {
      constraint := Some(Rect(l, t, w, h));
      left := if l > left then l else left;
      top := if t > top then t else top;
      keepInBounds := true;
      r := constraint.value;
    }

    /**
     * `collidesWith` of this generation: never with itself, otherwise the
     * boxes meet unless one lies strictly beside the other, so touching
     * edges collide.
     */
    function CollidesWith(other: Sprite): (r: bool)
      reads this, other
      ensures other == this ==> !r
      ensures other != this ==> (r <==> ClosedOverlap(Bounds(), other.Bounds()))
    {
      if other == this then false
      else !(top + height < other.top || top > other.top + other.height ||
             left + width < other.left || left > other.left + other.width)
    }

    /**
     * `getIntersection` as written: only for colliding sprites, and its
     * width takes the smaller of this sprite's right edge and the other's
     * `width + height`, which is not the other's right edge.
     */
    function GetIntersectionAsWritten(other: Sprite): (r: Option<Rect>)
      reads this, other
      ensures r == None <==> !CollidesWith(other)
      ensures r.Some? ==> r.value.left == Max(left, other.left) && r.value.top == Max(top, other.top)
      ensures r.Some? ==> r.value.Right() == Min(left + width, other.width + other.height)
      ensures r.Some? ==> r.value.height == Min(top + height, other.top + other.height) - r.value.top
      ensures r.Some? && height >= 0.0 && other.height >= 0.0 ==> r.value.height >= 0.0
    {
      if !CollidesWith(other) then None
      else
        var l := Max(left, other.left);
        var t := Max(top, other.top);
        Some(Rect(l, t, Min(left + width, other.width + other.height) - l,
                  Min(top + height, other.top + other.height) - t))
    }

    /**
     * `getIntersection` with the other's right edge in the width: the
     * overlap of the two boxes, which lies inside both.
     */
    function GetIntersection(other: Sprite): (r: Option<Rect>)
      reads this, other
      ensures r == None <==> !CollidesWith(other)
      ensures r.Some? ==> r.value == Overlap(Bounds(), other.Bounds())
      ensures r.Some? && width >= 0.0 && height >= 0.0 && other.width >= 0.0 && other.height >= 0.0 ==>
                Inside(r.value, Bounds()) && Inside(r.value, other.Bounds())
    {
      if !CollidesWith(other) then None
      else
        var l := Max(left, other.left);
        var t := Max(top, other.top);
        Some(Rect(l, t, Min(left + width, other.left + other.width) - l,
                  Min(top + height, other.top + other.height) - t))
    }

    /** `collidesWithEdge`: false against itself, otherwise the one-sided `EdgeTest`. */
    function CollidesWithEdge(other: Sprite, edge: real): (r: Option<bool>)
      reads this, other
      ensures other == this ==> r == Some(false)
      ensures other != this ==> r == EdgeTest(Bounds(), other.Bounds(), edge)
    {
      if other == this then Some(false) else EdgeTest(Bounds(), other.Bounds(), edge)
    }

    /**
     * `setSheet`: records the sheet, starts a blank animation record and
     * switches to animation 0; an empty sheet makes that switch throw.
     */
    method SetSheet(s: seq<SheetEntry>) returns (threw: bool)
      modifies this`sheet, this`animation
      ensures sheet == s && animation.Some?
      ensures threw <==> s == []
      ensures !threw ==> animation == Some(Started(s[0])) && animation.value.InRange()
    {
      sheet := s;
      animation := Some(Animation(None, 0, 0, 0, 0, false));
      threw := SwitchAnimation(0);
    }

    /**
     * `switchAnimation(i)`: plays entry `i` from its first column. Without a
     * sheet, reading it throws; for an index the sheet lacks, the record loses
     * its entry and reading the entry's fields throws.
     */
    method SwitchAnimation(i: int) returns (threw: bool)
      modifies this`animation
      ensures threw <==> animation.None? || !(0 <= i < |sheet|)
      ensures old(animation) == None ==> animation == None
      ensures old(animation).Some? ==> animation.Some?
      ensures old(animation).Some? && !(0 <= i < |sheet|) ==> animation == Some(old(animation).value.(kind := None))
      ensures !threw ==> animation == Some(Started(sheet[i])) && animation.value.InRange()
    {
      if animation == None {
        return true;
      }
      if !(0 <= i < |sheet|) {
        animation := Some(animation.value.(kind := None));
        return true;
      }
      var e := sheet[i];
      animation := Some(Animation(Some(e), e.col, e.col + (e.amount - 1), e.fpt, 0, e.onComplete));
      threw := false;
    }

    /**
     * `updateAnimation`: one tick. The counter advances; when it reaches the
     * ticks per frame the column advances and the counter restarts. Past the
     * last column the animation wraps to its first column and, when a
     * callback is attached, `completed` reports that it fired. Without an
     * animation record or without an entry to wrap to, the method throws.
     */
    method UpdateAnimation() returns (threw: bool, completed: bool)
      modifies this`animation
      ensures threw <==> old(animation).None? || (old(animation).value.kind.None? && Ticked(old(animation).value).col > Ticked(old(animation).value).maxCol)
      ensures !threw ==> animation == Some(Tick(old(animation).value))
      ensures !threw ==> (completed <==> Wraps(old(animation).value) && old(animation).value.onComplete)
      ensures old(animation).Some? && old(animation).value.InRange() ==> !threw && animation.value.InRange()
    {
      completed := false;
      if animation == None {
        return true, false;
      }
      var a := animation.value;
      var t := a.(counter := a.counter + 1);
      if t.counter == t.fpt {
        t := t.(col := t.col + 1, counter := 0);
      }
      if t.col > t.maxCol {
        if t.kind == None {
          animation := Some(t);
          return true, false;
        }
        t := t.(col := t.kind.value.col);
        completed := t.onComplete;
      }
      animation := Some(t);
      threw := false;
      if a.InRange() {
        TickInRange(a);
      }
    }

    /** `getChildAt`: the child at `index`, or `undefined` (here `null`). */
    function GetChildAt(index: int): (r: Sprite?)
      reads this
      ensures r != null <==> 0 <= index < |children|
      ensures r != null ==> r == children[index]
    {
      if 0 <= index < |children| then children[index] else null
    }

    /** `contains`: `indexOf` finds the sprite. */
    function Contains(c: Sprite): (r: bool)
      reads this
      ensures r <==> c in children
    {
      IndexOf(children, c) > -1
    }

    /**
     * `setX`: stores `x`, shifted by the constraint's left edge when there is
     * a constraint, and moves every child that is not being dragged by
     * `x` minus the old `left`, each through its own `setX`, so each moved
     * descendant also gets its own constraint's offset added.
     */
    method SetX(x: real, ghost scene: set<Sprite>)
      requires Tree(scene) && this in scene && Root(this, scene)
      modifies scene`left
      ensures left == x + ConstraintLeft(constraint)
      ensures forall s :: s in scene && s != this ==>
                s.left == old(s.left) + (if s in old(Moved(this, scene)) then x - old(left) + ConstraintLeft(s.constraint) else 0.0)
      decreases scene, 0
    {
      var delta := x - left;
      ghost var rest := scene - {this};
      TreeWithoutRoot(this, scene);
      ghost var before, steps := MovedPieces(this, scene);
      left := if constraint.Some? then x + constraint.value.left else x;
      if |children| > 0 {
        var child: Sprite? := children[0];
        var i := 0;
        while child != null
          invariant 0 <= i <= |children|
          invariant (child != null <==> i < |children|) && (i < |children| ==> child == children[i])
          invariant left == x + ConstraintLeft(constraint)
          invariant forall s :: s in rest && s in before[i] ==> s.left == old(s.left) + delta + ConstraintLeft(s.constraint)
          invariant forall s :: s in rest && s !in before[i] ==> s.left == old(s.left)
          decreases |children| - i
        {
          ChildrenKept(Place(rest, i));
          NextLink(children, i);
          var following := child.next;
          ShiftX(child, delta, rest, steps[i]);
          child := following;
          i := i + 1;
        }
      }
    }

    /** `setY`: the vertical counterpart of `setX`. */
    method SetY(y: real, ghost scene: set<Sprite>)
      requires Tree(scene) && this in scene && Root(this, scene)
      modifies scene`top
      ensures top == y + ConstraintTop(constraint)
      ensures forall s :: s in scene && s != this ==>
                s.top == old(s.top) + (if s in old(Moved(this, scene)) then y - old(top) + ConstraintTop(s.constraint) else 0.0)
      decreases scene, 0
    {
      var delta := y - top;
      ghost var rest := scene - {this};
      TreeWithoutRoot(this, scene);
      ghost var before, steps := MovedPieces(this, scene);
      top := if constraint.Some? then y + constraint.value.top else y;
      if |children| > 0 {
        var child: Sprite? := children[0];
        var i := 0;
        while child != null
          invariant 0 <= i <= |children|
          invariant (child != null <==> i < |children|) && (i < |children| ==> child == children[i])
          invariant top == y + ConstraintTop(constraint)
          invariant forall s :: s in rest && s in before[i] ==> s.top == old(s.top) + delta + ConstraintTop(s.constraint)
          invariant forall s :: s in rest && s !in before[i] ==> s.top == old(s.top)
          decreases |children| - i
        {
          ChildrenKept(Place(rest, i));
          NextLink(children, i);
          var following := child.next;
          ShiftY(child, delta, rest, steps[i]);
          child := following;
          i := i + 1;
        }
      }
    }

    /**
     * Moving sprites changes no link: child `i`, below this root, keeps its
     * place in `rest` and what it moves.
     */
    twostate lemma ChildrenKept(pl: Place)
      requires var Place(rest, i) := pl; forall s :: s in rest ==> old(allocated(s))
      requires var Place(rest, i) := pl; old(Tree(rest)) && i < old(|children|) && old(children[i] in rest && Root(children[i], rest))
      requires old(LinksOk(children)) && forall k :: 0 <= k < old(|children|) ==> old(children[k]) in pl.rest
      requires unchanged(this`children) && forall s :: s in pl.rest ==> unchanged(s`children, s`parent, s`last, s`next, s`isDragging)
      ensures var Place(rest, i) := pl; Tree(rest) && children[i] in rest && Root(children[i], rest) && LinksOk(children)
      ensures var Place(rest, i) := pl; Moved(children[i], rest) == old(Moved(children[i], rest))
    {
    }

    /**
     * One turn of the loop of `setX`: a child that is not being dragged moves
     * by `delta` through its own `setX`; `step` is what that moves.
     */
    method ShiftX(child: Sprite, delta: real, ghost rest: set<Sprite>, ghost step: set<Sprite>)
      requires Tree(rest) && child in rest && Root(child, rest)
      requires step == if child.isDragging then {} else Moved(child, rest)
      modifies rest`left
      ensures forall s :: s in rest && s in step ==> s.left == old(s.left) + delta + ConstraintLeft(s.constraint)
      ensures forall s :: s in rest && s !in step ==> s.left == old(s.left)
      decreases rest, 1
    {
      if !child.isDragging {
        child.SetX(child.left + delta, rest);
      }
    }

    /** One turn of the loop of `setY`. */
    method ShiftY(child: Sprite, delta: real, ghost rest: set<Sprite>, ghost step: set<Sprite>)
      requires Tree(rest) && child in rest && Root(child, rest)
      requires step == if child.isDragging then {} else Moved(child, rest)
      modifies rest`top
      ensures forall s :: s in rest && s in step ==> s.top == old(s.top) + delta + ConstraintTop(s.constraint)
      ensures forall s :: s in rest && s !in step ==> s.top == old(s.top)
      decreases rest, 1
    {
      if !child.isDragging {
        child.SetY(child.top + delta, rest);
      }
    }

    /**
     * The extent `setBounds` reads as the area: the constraint's width or, with
     * no constraint, `canvas.width`, a property the stage does not have, so
     * `undefined` (`None`).
     */
    function ReadAreaWidth(): (a: Option<real>)
      reads this`constraint
      ensures a.Some? <==> constraint.Some?
      ensures constraint.Some? ==> a.value == constraint.value.width
    {
      if constraint.Some? then Some(constraint.value.width) else None
    }

    /** The vertical counterpart of `ReadAreaWidth`. */
    function ReadAreaHeight(): (a: Option<real>)
      reads this`constraint
      ensures a.Some? <==> constraint.Some?
      ensures constraint.Some? ==> a.value == constraint.value.height
    {
      if constraint.Some? then Some(constraint.value.height) else None
    }

    /**
     * The extent `setBounds` evidently means: the constraint's width, or
     * the width of the stage the sprite is on.
     */
    function AreaWidth(): real
      requires constraint.Some? || canvas != null
      reads this`constraint, this`canvas, canvas
    {
      if constraint.Some? then constraint.value.width else canvas.width
    }

    /** The vertical counterpart of `AreaWidth`. */
    function AreaHeight(): real
      requires constraint.Some? || canvas != null
      reads this`constraint, this`canvas, canvas
    {
      if constraint.Some? then constraint.value.height else canvas.height
    }

    /**
     * `setBounds`: an absent coordinate stands for the current one, and both
     * are taken relative to the constraint. Without a constraint and without
     * a canvas the call throws before changing anything. Otherwise a given
     * width or height replaces the current one (no re-centring), each
     * coordinate is placed by `FitAsWritten`, and `setX`/`setY` move the
     * sprite and its still children there. With no constraint the area
     * read is `undefined`: a sprite that keeps in bounds is sent to NaN
     * (`nan`), where the model promises only that nothing outside the moved
     * subtree changes, and one that does not is placed unshifted.
     */
    method SetBounds(x: Option<real>, y: Option<real>, w: Option<real>, h: Option<real>, ghost scene: set<Sprite>)
      returns (threw: bool, nan: bool)
      requires Tree(scene) && this in scene && Root(this, scene)
      modifies scene`left, scene`top, this`width, this`height
      ensures threw <==> constraint.None? && canvas == null
      ensures nan <==> !threw && constraint.None? && keepInBounds
      ensures threw ==> width == old(width) && height == old(height)
      ensures threw ==> forall s :: s in scene ==> s.left == old(s.left) && s.top == old(s.top)
      ensures !threw ==> width == (if w.Some? then w.value else old(width)) &&
                         height == (if h.Some? then h.value else old(height))
      ensures nan ==> forall s :: s in scene && s !in old(Moved(this, scene)) ==>
                s.left == old(s.left) && s.top == old(s.top)
      ensures !threw && !nan ==>
                left == FitAsWritten((if x.Some? then x.value else old(left)) - ConstraintLeft(constraint),
                                     width, ReadAreaWidth(), keepInBounds).value + ConstraintLeft(constraint) &&
                top == FitAsWritten((if y.Some? then y.value else old(top)) - ConstraintTop(constraint),
                                    height, ReadAreaHeight(), keepInBounds).value + ConstraintTop(constraint)
      ensures !threw && !nan ==> forall s :: s in scene && s != this ==>
                s.left == old(s.left) + (if s in old(Moved(this, scene))
                                         then left - ConstraintLeft(constraint) - old(left) + ConstraintLeft(s.constraint)
                                         else 0.0) &&
                s.top == old(s.top) + (if s in old(Moved(this, scene))
                                       then top - ConstraintTop(constraint) - old(top) + ConstraintTop(s.constraint)
                                       else 0.0)
    {
      var tx := if x.Some? then x.value else left;
      var ty := if y.Some? then y.value else top;
      if constraint.Some? {
        tx := tx - constraint.value.left;
        ty := ty - constraint.value.top;
      } else if canvas == null {
        return true, false;
      }
      Resize(w, h);
      TreeKept(scene);
      nan := FitTo(tx, ty, scene);
      threw := false;
    }

    /**
     * `setBounds` as evidently intended: `SetBounds` with the stage's own
     * extent as the area when there is no constraint, so that every
     * coordinate is placed by `Fit`.
     */
    method SetBoundsOnStage(x: Option<real>, y: Option<real>, w: Option<real>, h: Option<real>, ghost scene: set<Sprite>)
      returns (threw: bool)
      requires Tree(scene) && this in scene && Root(this, scene)
      modifies scene`left, scene`top, this`width, this`height
      ensures threw <==> constraint.None? && canvas == null
      ensures threw ==> width == old(width) && height == old(height)
      ensures threw ==> forall s :: s in scene ==> s.left == old(s.left) && s.top == old(s.top)
      ensures !threw ==> width == (if w.Some? then w.value else old(width)) &&
                         height == (if h.Some? then h.value else old(height))
      ensures !threw ==>
                left == Fit((if x.Some? then x.value else old(left)) - ConstraintLeft(constraint),
                            width, AreaWidth(), keepInBounds) + ConstraintLeft(constraint) &&
                top == Fit((if y.Some? then y.value else old(top)) - ConstraintTop(constraint),
                           height, AreaHeight(), keepInBounds) + ConstraintTop(constraint)
      ensures !threw ==> forall s :: s in scene && s != this ==>
                s.left == old(s.left) + (if s in old(Moved(this, scene))
                                         then left - ConstraintLeft(constraint) - old(left) + ConstraintLeft(s.constraint)
                                         else 0.0) &&
                s.top == old(s.top) + (if s in old(Moved(this, scene))
                                       then top - ConstraintTop(constraint) - old(top) + ConstraintTop(s.constraint)
                                       else 0.0)
    {
      var tx := if x.Some? then x.value else left;
      var ty := if y.Some? then y.value else top;
      if constraint.Some? {
        tx := tx - constraint.value.left;
        ty := ty - constraint.value.top;
      } else if canvas == null {
        return true;
      }
      Resize(w, h);
      TreeKept(scene);
      FitToStage(tx, ty, scene);
      threw := false;
    }

    /** Resizing changes no link: this root of `scene` stays one and moves what it moved. */
    twostate lemma TreeKept(scene: set<Sprite>)
      requires forall s :: s in scene ==> old(allocated(s))
      requires old(Tree(scene) && this in scene && Root(this, scene))
      requires forall s :: s in scene ==> unchanged(s`children, s`parent, s`last, s`next, s`isDragging)
      ensures Tree(scene) && this in scene && Root(this, scene) && Moved(this, scene) == old(Moved(this, scene))
    {
    }

    /** The size part of `setBounds`: a given extent replaces the current one. */
    method Resize(w: Option<real>, h: Option<real>)
      modifies this`width, this`height
      ensures width == (if w.Some? then w.value else old(width))
      ensures height == (if h.Some? then h.value else old(height))
    {
      if w.Some? {
        width := w.value;
      }
      if h.Some? {
        height := h.value;
      }
    }

    /**
     * The placing part of `setBounds`: each coordinate fitted into the area
     * as written, then `setX(x), setY(y)`; a NaN coordinate (`nan`) is not
     * modelled, and this model then moves nothing.
     */
    method FitTo(x: real, y: real, ghost scene: set<Sprite>) returns (nan: bool)
      requires Tree(scene) && this in scene && Root(this, scene)
      modifies scene`left, scene`top
      ensures nan <==> constraint.None? && keepInBounds
      ensures nan ==> forall s :: s in scene && s !in old(Moved(this, scene)) ==>
                s.left == old(s.left) && s.top == old(s.top)
      ensures !nan ==>
                left == FitAsWritten(x, width, ReadAreaWidth(), keepInBounds).value + ConstraintLeft(constraint) &&
                top == FitAsWritten(y, height, ReadAreaHeight(), keepInBounds).value + ConstraintTop(constraint)
      ensures !nan ==> forall s :: s in scene && s != this ==>
                s.left == old(s.left) + (if s in old(Moved(this, scene))
                                         then left - ConstraintLeft(constraint) - old(left) + ConstraintLeft(s.constraint)
                                         else 0.0) &&
                s.top == old(s.top) + (if s in old(Moved(this, scene))
                                       then top - ConstraintTop(constraint) - old(top) + ConstraintTop(s.constraint)
                                       else 0.0)
    {
      var fx := FitAsWritten(x, width, ReadAreaWidth(), keepInBounds);
      var fy := FitAsWritten(y, height, ReadAreaHeight(), keepInBounds);
      if fx.None? || fy.None? {
        return true;
      }
      SetX(fx.value, scene);
      SetY(fy.value, scene);
      nan := false;
    }

    /** The placing part of `SetBoundsOnStage`: `FitTo` within the stage's extent. */
    method FitToStage(x: real, y: real, ghost scene: set<Sprite>)
      requires Tree(scene) && this in scene && Root(this, scene) && (constraint.Some? || canvas != null)
      modifies scene`left, scene`top
      ensures left == Fit(x, width, AreaWidth(), keepInBounds) + ConstraintLeft(constraint) &&
              top == Fit(y, height, AreaHeight(), keepInBounds) + ConstraintTop(constraint)
      ensures forall s :: s in scene && s != this ==>
                s.left == old(s.left) + (if s in old(Moved(this, scene))
                                         then left - ConstraintLeft(constraint) - old(left) + ConstraintLeft(s.constraint)
                                         else 0.0) &&
                s.top == old(s.top) + (if s in old(Moved(this, scene))
                                       then top - ConstraintTop(constraint) - old(top) + ConstraintTop(s.constraint)
                                       else 0.0)
    {
      var fx := Fit(x, width, AreaWidth(), keepInBounds);
      var fy := Fit(y, height, AreaHeight(), keepInBounds);
      SetX(fx, scene);
      SetY(fy, scene);
    }

    /**
     * `handleMove`: `setBounds` at the recorded start offset plus the
     * pointer's travel since the press.
     */
    method HandleMove(x: real, y: real, ghost scene: set<Sprite>) returns (threw: bool, nan: bool)
      requires Tree(scene) && this in scene && Root(this, scene)
      modifies scene`left, scene`top, this`width, this`height
      ensures threw <==> constraint.None? && canvas == null
      ensures nan <==> !threw && constraint.None? && keepInBounds
      ensures width == old(width) && height == old(height)
      ensures threw ==> forall s :: s in scene ==> s.left == old(s.left) && s.top == old(s.top)
      ensures nan ==> forall s :: s in scene && s !in old(Moved(this, scene)) ==>
                s.left == old(s.left) && s.top == old(s.top)
      ensures !threw && !nan ==>
                left == FitAsWritten(dragStartOffset.x + (x - dragStartEvent.x) - ConstraintLeft(constraint),
                                     width, ReadAreaWidth(), keepInBounds).value + ConstraintLeft(constraint) &&
                top == FitAsWritten(dragStartOffset.y + (y - dragStartEvent.y) - ConstraintTop(constraint),
                                    height, ReadAreaHeight(), keepInBounds).value + ConstraintTop(constraint)
      ensures !threw && !nan ==> forall s :: s in scene && s != this ==>
                s.left == old(s.left) + (if s in old(Moved(this, scene))
                                         then left - ConstraintLeft(constraint) - old(left) + ConstraintLeft(s.constraint)
                                         else 0.0) &&
                s.top == old(s.top) + (if s in old(Moved(this, scene))
                                       then top - ConstraintTop(constraint) - old(top) + ConstraintTop(s.constraint)
                                       else 0.0)
    {
      threw, nan := SetBounds(Some(dragStartOffset.x + (x - dragStartEvent.x)),
                         Some(dragStartOffset.y + (y - dragStartEvent.y)), None, None, scene);
    }

    /**
     * `handleInteraction` of this generation. The children are offered the
     * event first, from the top of the display list down along the `last`
     * links, and the first that handles it (or throws) ends the call
     * (`byChild`). A sprite that is not interactive then does nothing. Its
     * own drag step is `DistStep`: a release ends a drag before any hit test;
     * otherwise `hover` records whether the pointer is inside the bounds the
     * sprite had on entry, a press inside starts a drag, and a draggable
     * sprite that is being dragged follows the pointer through `handleMove`.
     */
    method HandleInteraction(x: real, y: real, ev: EventType, now: int, ghost scene: set<Sprite>)
      returns (r: Outcome, ghost byChild: bool)
      requires Tree(scene) && this in scene && Root(this, scene)
      modifies scene`isDragging, scene`dragStartTime, scene`dragStartOffset, scene`dragStartEvent,
               scene`left, scene`top, scene`width, scene`height, scene`hover
      ensures byChild ==> r != Unhandled && children != []
      ensures byChild || !interactive ==>
                isDragging == old(isDragging) && hover == old(hover) && left == old(left) && top == old(top) &&
                dragStartTime == old(dragStartTime)
      ensures !byChild && !interactive ==> r == Unhandled
      ensures width == old(width) && height == old(height)
      ensures interactive && !byChild ==>
                var inside := ContainsClosed(old(Bounds()), x, y);
                var a := DistStep(draggable, old(isDragging), ev, inside, now - old(dragStartTime));
                (a.EndDrag? ==> r == Handled((if a.click then [Click] else []) + [Release]) && !isDragging &&
                                hover == old(hover)) &&
                (!a.EndDrag? ==> hover == inside) &&
                (a == StartDrag ==> r == Handled([Press(x, y)]) && isDragging && dragStartTime == now &&
                                    dragStartOffset == Point(old(left), old(top)) && dragStartEvent == Point(x, y)) &&
                (a == Ignore ==> r == Unhandled && isDragging == old(isDragging) && left == old(left) && top == old(top)) &&
                (a == Move ==> isDragging && (r == Threw <==> constraint.None? && canvas == null)) &&
                (a == Move && r != Threw ==> r == Handled([])) &&
                (a == Move && r != Threw && !(constraint.None? && keepInBounds) ==>
                   left == FitAsWritten(dragStartOffset.x + (x - dragStartEvent.x) - ConstraintLeft(constraint),
                                        width, ReadAreaWidth(), keepInBounds).value + ConstraintLeft(constraint) &&
                   top == FitAsWritten(dragStartOffset.y + (y - dragStartEvent.y) - ConstraintTop(constraint),
                                       height, ReadAreaHeight(), keepInBounds).value + ConstraintTop(constraint))
      decreases scene, 1
    {
      byChild := false;
      var inside := ContainsClosed(Bounds(), x, y);
      var found := OfferToChildren(x, y, ev, now, scene);
      if found != Unhandled {
        return found, true;
      }
      if !interactive {
        return Unhandled, false;
      }
      r := OwnStep(x, y, ev, now, inside, scene);
    }

    /**
     * The second half of `handleInteraction` for an interactive sprite: its
     * own drag step, `inside` telling whether the pointer lies in the bounds
     * the sprite had on entry.
     */
    method OwnStep(x: real, y: real, ev: EventType, now: int, inside: bool, ghost scene: set<Sprite>)
      returns (r: Outcome)
      requires Tree(scene) && this in scene && Root(this, scene)
      modifies this`isDragging, this`dragStartTime, this`dragStartOffset, this`dragStartEvent, this`hover,
               scene`left, scene`top, this`width, this`height
      ensures width == old(width) && height == old(height)
      ensures var a := DistStep(draggable, old(isDragging), ev, inside, now - old(dragStartTime));
                (a.EndDrag? ==> r == Handled((if a.click then [Click] else []) + [Release]) && !isDragging &&
                                hover == old(hover)) &&
                (!a.EndDrag? ==> hover == inside) &&
                (a == StartDrag ==> r == Handled([Press(x, y)]) && isDragging && dragStartTime == now &&
                                    dragStartOffset == Point(old(left), old(top)) && dragStartEvent == Point(x, y)) &&
                (a == Ignore ==> r == Unhandled && isDragging == old(isDragging) && left == old(left) && top == old(top)) &&
                (a == Move ==> isDragging && (r == Threw <==> constraint.None? && canvas == null)) &&
                (a == Move && r != Threw ==> r == Handled([])) &&
                (a == Move && r != Threw && !(constraint.None? && keepInBounds) ==>
                   left == FitAsWritten(dragStartOffset.x + (x - dragStartEvent.x) - ConstraintLeft(constraint),
                                        width, ReadAreaWidth(), keepInBounds).value + ConstraintLeft(constraint) &&
                   top == FitAsWritten(dragStartOffset.y + (y - dragStartEvent.y) - ConstraintTop(constraint),
                                       height, ReadAreaHeight(), keepInBounds).value + ConstraintTop(constraint))
    {
      if isDragging && IsRelease(ev) {
        isDragging := false;
        var hooks := if now - dragStartTime < 250 then [Click] else [];
        return Handled(hooks + [Release]);
      }
      hover := inside;
      if inside && !isDragging && IsPress(ev) {
        isDragging := true;
        dragStartTime := now;
        dragStartOffset := Point(left, top);
        dragStartEvent := Point(x, y);
        return Handled([Press(x, y)]);
      }
      if draggable && isDragging {
        var threw, _ := HandleMove(x, y, scene);
        return if threw then Threw else Handled([]);
      }
      r := Unhandled;
    }

    /**
     * The first half of `handleInteraction`: the children, from the last down
     * along the `last` links, until one reports something other than `Unhandled`.
     * None of this sprite's own fields change.
     */
    method OfferToChildren(x: real, y: real, ev: EventType, now: int, ghost scene: set<Sprite>) returns (found: Outcome)
      requires Tree(scene) && this in scene && Root(this, scene)
      modifies (scene - {this})`isDragging, (scene - {this})`dragStartTime, (scene - {this})`dragStartOffset,
               (scene - {this})`dragStartEvent, (scene - {this})`left, (scene - {this})`top,
               (scene - {this})`width, (scene - {this})`height, (scene - {this})`hover
      ensures found != Unhandled ==> children != []
      decreases scene, 0
    {
      ghost var rest := scene - {this};
      TreeWithoutRoot(this, scene);
      found := Unhandled;
      var n := |children|;
      if n > 0 {
        var child: Sprite? := children[n - 1];
        var i := n;
        while child != null
          invariant 0 <= i <= n == |children|
          invariant (child != null <==> i > 0) && (i > 0 ==> child == children[i - 1])
          invariant Tree(rest)
          decreases i
        {
          LastLink(children, i - 1);
          var outcome, _ := child.HandleInteraction(x, y, ev, now, rest);
          if outcome != Unhandled {
            return outcome;
          }
          child := child.last;
          i := i - 1;
        }
      }
    }

    /**
     * `addChild`: appends `c` to the display list, linking it behind the
     * current last child, hands it this sprite's canvas and this sprite as
     * its parent, and asks the canvas (if any) for a render. An empty list
     * links nothing: `c` keeps whatever links it had.
     */
    method AddChild(c: Sprite, ghost scene: set<Sprite>) returns (r: Sprite)
      modifies this`children, c`last, c`next, c`canvas, c`parent
      modifies (if children == [] then {} else {children[|children| - 1]})`next
      modifies (if canvas == null then {} else {canvas})`renderPending, (if canvas == null then {} else {canvas})`scheduled
      ensures r == this && children == old(children) + [c]
      ensures c.parent == InSprite(this) && c.canvas == canvas
      ensures old(children) != [] ==> c.last == old(children[|children| - 1]) && c.next == null
      ensures old(children) != [] && old(children[|children| - 1]) != c ==> old(children[|children| - 1]).next == c
      ensures old(children) == [] ==> c.last == old(c.last) && c.next == old(c.next)
      ensures canvas == old(canvas)
      ensures canvas != null ==> canvas.Invalidated(old(canvas.renderPending), old(canvas.scheduled))
      ensures old(Tree(scene)) && this in scene && c in scene && c != this && old(c.parent) == Detached ==> Tree(scene)
    {
      ghost var a := Append(this, c, scene, children);
      Attach(c, a);
      if canvas != null {
        canvas.Invalidate();
      }
      if old(Tree(a.scene)) && a.p in a.scene && a.c in a.scene && a.c != a.p && old(a.c.parent) == Detached {
        AddKeepsTree(a);
      }
      r := this;
    }

    /**
     * The list part of `addChild`, with what it leaves alone spelled out over
     * the sprites of `a.scene`.
     */
    method Attach(c: Sprite, ghost a: Append)
      requires a.p == this && a.c == c && a.before == children
      modifies this`children, c`last, c`next, c`canvas, c`parent
      modifies (if children == [] then {} else {children[|children| - 1]})`next
      ensures children == old(children) + [c] && canvas == old(canvas)
      ensures c.parent == InSprite(this) && c.canvas == canvas
      ensures old(children) != [] ==> c.last == old(children[|children| - 1]) && c.next == null
      ensures old(children) != [] && old(children[|children| - 1]) != c ==> old(children[|children| - 1]).next == c
      ensures old(children) == [] ==> c.last == old(c.last) && c.next == old(c.next)
      ensures forall s :: s in a.scene && s != a.p ==> s.children == old(s.children)
      ensures forall s :: s in a.scene && s != a.c ==> s.parent == old(s.parent) && s.last == old(s.last)
      ensures forall s :: s in a.scene && s != a.c && (a.before == [] || s != a.before[|a.before| - 1]) ==>
                s.next == old(s.next)
    {
      if |children| > 0 {
        var previous := children[|children| - 1];
        c.last := previous;
        previous.next := c;
        c.next := null;
      }
      c.canvas := canvas;
      c.parent := InSprite(this);
      children := children + [c];
    }

    /**
     * `removeChild`: detaches `c`, splices its first occurrence out of the
     * list, joins its neighbours to each other, clears its links and asks
     * the canvas (if any) for a render. A well-linked list that held `c`
     * once stays well linked.
     */
    method RemoveChild(c: Sprite) returns (r: Sprite)
      modifies this`children, c`parent, c`canvas, c`last, c`next
      modifies (if c.last == null then {} else {c.last})`next, (if c.next == null then {} else {c.next})`last
      modifies (if canvas == null then {} else {canvas})`renderPending, (if canvas == null then {} else {canvas})`scheduled
      ensures r == c && children == RemoveFirst(old(children), c)
      ensures c.parent == Detached && c.canvas == null && c.last == null && c.next == null
      ensures old(c.last) != null && old(c.last) != c ==> old(c.last).next == old(c.next)
      ensures old(c.next) != null && old(c.next) != c ==> old(c.next).last == old(c.last)
      ensures canvas == if c == this then null else old(canvas)
      ensures c != this && canvas != null ==> canvas.Invalidated(old(canvas.renderPending), old(canvas.scheduled))
      ensures old(LinksOk(children) && Distinct(children)) && c in old(children) ==>
                LinksOk(children) && Distinct(children)
    {
      Detach(c);
      var k := IndexOf(children, c);
      children := Excise(c, children, k);
      if canvas != null {
        canvas.Invalidate();
      }
      r := c;
    }

    /** The detaching part of `removeChild`: `c` loses its parent and its canvas. */
    method Detach(c: Sprite)
      modifies c`parent, c`canvas
      ensures c.parent == Detached && c.canvas == null
      ensures canvas == if c == this then null else old(canvas)
    {
      c.parent := Detached;
      c.canvas := null;
    }

    /**
     * `removeChildAt`: `removeChild(getChildAt(index))`. Out of range that is
     * `removeChild(undefined)`, which throws before changing anything.
     */
    method RemoveChildAt(index: int) returns (threw: bool, r: Sprite?)
      modifies this`children, children`parent, children`canvas, children`last, children`next
      modifies (set s | s in children && s.last != null :: s.last)`next
      modifies (set s | s in children && s.next != null :: s.next)`last
      modifies (if canvas == null then {} else {canvas})`renderPending, (if canvas == null then {} else {canvas})`scheduled
      ensures threw <==> !(0 <= index < |old(children)|)
      ensures threw ==> children == old(children) && r == null
      ensures !threw ==> r == old(children[index]) && children == RemoveFirst(old(children), r) &&
                         r.parent == Detached && r.canvas == null && r.last == null && r.next == null
      ensures !threw && old(LinksOk(children) && Distinct(children)) ==> LinksOk(children) && Distinct(children)
    {
      var c := GetChildAt(index);
      if c == null {
        return true, null;
      }
      r := RemoveChild(c);
      threw := false;
    }

    /**
     * The stages `dispose` may ask for a render: the parent sprite's canvas,
     * the stage the sprite sits on, or, for a detached sprite, its own canvas.
     */
    ghost function Notified(): set<Stage>
      reads this, UpSprite(parent)
    {
      match parent
      case Detached => if canvas == null then {} else {canvas}
      case InSprite(p) => if p.canvas == null then {} else {p.canvas}
      case OnStage(st) => {st}
    }

    /**
     * `dispose`: once only, marks the sprite disposed, takes it out of its
     * container, disposes its children from the last to the first, clearing
     * the links of each, and empties its list. `sh` is the shape of the
     * subtree the sprite heads; every sprite of it ends disposed, detached
     * and empty, and every one below the top unlinked and off the canvas.
     */
    method Dispose(ghost sh: Shape)
      requires sh.top == this && Seated(sh)
      modifies Nodes(sh), UpSprite(parent)`children, UpStage(parent)`children
      modifies (if last == null then {} else {last})`next, (if next == null then {} else {next})`last
      modifies Notified()`renderPending, Notified()`scheduled
      ensures old(disposed) ==> unchanged(this) && unchanged(UpSprite(parent)) && unchanged(UpStage(parent))
      ensures !old(disposed) ==> Disposed(sh)
      ensures !old(disposed) && old(parent) == Detached ==> canvas == old(canvas) && last == old(last) && next == old(next)
      ensures !old(disposed) && old(parent) != Detached ==> canvas == null && last == null && next == null
      ensures old(parent) != Detached ==> ListOk(Siblings(old(parent)), old(parent))
      ensures old(parent) != Detached && !old(disposed) ==> Siblings(old(parent)) == RemoveFirst(old(Siblings(parent)), this)
      ensures !old(disposed) && old(parent).OnStage? ==>
                old(parent).stage.Invalidated(old(parent.stage.renderPending), old(parent.stage.scheduled))
      ensures !old(disposed) && old(parent).InSprite? && old(parent.sprite.canvas) != null ==>
                old(parent.sprite.canvas).Invalidated(old(parent.sprite.canvas.renderPending), old(parent.sprite.canvas.scheduled))
      decreases sh, 4
    {
      if disposed {
        return;
      }
      ghost var pa := parent;
      ghost var siblings := Siblings(parent);
      ghost var stages := if parent == Detached then {} else Notified();
      disposed := true;
      LeaveParent(sh);
      ghost var rest := Siblings(pa);
      if pa != Detached {
        RemoveFirstRest(siblings, this);
      }
      DisposeChildren(sh, Listing(rest, pa), stages);
      assert Siblings(pa) == rest;
    }

    /** The first step of `dispose`: `parent.removeChild(this)`, when there is a parent. */
    method LeaveParent(ghost sh: Shape)
      requires sh.top == this && Seated(sh)
      modifies UpSprite(parent)`children, UpStage(parent)`children, this`parent, this`canvas, this`last, this`next
      modifies (if last == null then {} else {last})`next, (if next == null then {} else {next})`last
      modifies Notified()`renderPending, Notified()`scheduled
      ensures Shaped(sh) && parent == Detached && children == old(children)
      ensures old(parent) == Detached ==> canvas == old(canvas) && last == old(last) && next == old(next)
      ensures old(parent) != Detached ==>
                canvas == null && last == null && next == null &&
                Siblings(old(parent)) == RemoveFirst(old(Siblings(parent)), this) &&
                ListOk(Siblings(old(parent)), old(parent))
      ensures old(parent).OnStage? ==>
                old(parent).stage.Invalidated(old(parent.stage.renderPending), old(parent.stage.scheduled))
      ensures old(parent).InSprite? && old(parent.sprite.canvas) != null ==>
                old(parent.sprite.canvas).Invalidated(old(parent.sprite.canvas.renderPending), old(parent.sprite.canvas.scheduled))
    {
      ghost var siblings := Siblings(parent);
      NodesAllocated(sh);
      if parent != Detached {
        var k := IndexOf(siblings, this);
        LastLink(siblings, k);
        NextLink(siblings, k);
        RemoveFirstRest(siblings, this);
      }
      match parent
      case Detached =>
      case InSprite(p) =>
        var _ := p.RemoveChild(this);
      case OnStage(st) =>
        var _ := st.RemoveChild(this, {});
    }

    /**
     * The loop of `dispose`, once the sprite is detached: from the last child
     * to the first, `dispose` the child (which takes it out of this list) and
     * clear its links; then empty the list.
     */
    method DisposeChildren(ghost sh: Shape, ghost l: Listing, ghost stages: set<Stage>)
      requires sh.top == this && Shaped(sh) && parent == Detached && disposed
      requires ListOk(l.cs, l.pa) && (forall k :: 0 <= k < |l.cs| ==> l.cs[k] !in Nodes(sh))
      requires UpSprite(l.pa) !! Nodes(sh) && (canvas == null || canvas !in stages)
      modifies Below(sh), this`children
      modifies (if canvas == null then {} else {canvas})`renderPending, (if canvas == null then {} else {canvas})`scheduled
      ensures children == [] && Disposed(sh)
      ensures last == old(last) && next == old(next) && canvas == old(canvas)
      ensures ListOk(l.cs, l.pa) && unchanged(UpSprite(l.pa)) && unchanged(stages)
      decreases sh, 3
    {
      NodesAllocated(sh);
      DisposeKids(sh);
      ListKept(l);
    }

    /** The loop itself, with the subtree `sh` as all it may change besides the canvas. */
    method DisposeKids(ghost sh: Shape)
      requires sh.top == this && Shaped(sh) && parent == Detached && disposed
      modifies Below(sh), this`children
      modifies (if canvas == null then {} else {canvas})`renderPending, (if canvas == null then {} else {canvas})`scheduled
      ensures children == [] && Disposed(sh)
      decreases sh, 2
    {
      ghost var ks := sh.kids;
      var i := |children|;
      while i > 0
        invariant 0 <= i <= |ks| && |children| == i && forall j :: 0 <= j < i ==> children[j] == ks[j].top
        invariant ListOk(children, InSprite(this))
        invariant forall j :: 0 <= j < i ==> Shaped(ks[j]) && !ks[j].top.disposed
        invariant forall j :: i <= j < |ks| ==> Disposed(ks[j]) && Loose(ks[j].top)
        decreases i
      {
        i := i - 1;
        var e := children[i];
        DisposeChild(e, sh, i);
      }
      children := [];
      DisposedFromKids(sh);
    }

    /**
     * `dispose` followed by `next = last = null`, as the loop of the parent's
     * `dispose` does to each child: a sprite that sat in a list leaves it with
     * its whole subtree disposed and itself unlinked.
     */
    method DisposeUnlinked(ghost sh: Shape)
      requires sh.top == this && Seated(sh) && parent.InSprite? && !disposed
      modifies Nodes(sh), UpSprite(parent)`children
      modifies (if last == null then {} else {last})`next, (if next == null then {} else {next})`last
      modifies Notified()`renderPending, Notified()`scheduled
      ensures Disposed(sh) && Loose(this)
      ensures ListOk(Siblings(old(parent)), old(parent)) && Siblings(old(parent)) == RemoveFirst(old(Siblings(parent)), this)
      ensures old(parent.sprite.canvas) != null ==>
                old(parent.sprite.canvas).Invalidated(old(parent.sprite.canvas.renderPending), old(parent.sprite.canvas.scheduled))
      decreases sh, 5
    {
      assert this !in Below(sh);
      ghost var siblings := Siblings(parent);
      Dispose(sh);
      RemoveFirstRest(siblings, this);
      assert this !in Siblings(old(parent));
      next := null;
      last := null;
    }

    /** One turn of the loop of `dispose`: `e.dispose(); e.next = e.last = null`, `e` the last child left. */
    method DisposeChild(e: Sprite, ghost sh: Shape, ghost i: nat)
      requires sh.top == this && parent == Detached && Apart(sh.kids, this) && this !in Below(sh) && i < |sh.kids|
      requires |children| == i + 1 && (forall j :: 0 <= j <= i ==> children[j] == sh.kids[j].top) && e == children[i]
      requires ListOk(children, InSprite(this))
      requires forall j :: 0 <= j <= i ==> Shaped(sh.kids[j]) && !sh.kids[j].top.disposed
      requires forall j :: i < j < |sh.kids| ==> Disposed(sh.kids[j]) && Loose(sh.kids[j].top)
      modifies Below(sh), this`children
      modifies (if canvas == null then {} else {canvas})`renderPending, (if canvas == null then {} else {canvas})`scheduled
      ensures |children| == i && (forall j :: 0 <= j < i ==> children[j] == sh.kids[j].top)
      ensures ListOk(children, InSprite(this))
      ensures forall j :: 0 <= j < i ==> Shaped(sh.kids[j]) && !sh.kids[j].top.disposed
      ensures forall j :: i <= j < |sh.kids| ==> Disposed(sh.kids[j]) && Loose(sh.kids[j].top)
      decreases sh, 1
    {
      NodesAllocated(sh);
      DisposeTurn(e, sh, i);
      TurnKept(Turn(sh.kids, i));
    }

    /** The heap side of one turn: child `i` disposed and unlinked, nothing else below touched. */
    method DisposeTurn(e: Sprite, ghost sh: Shape, ghost i: nat)
      requires sh.top == this && parent == Detached && Apart(sh.kids, this) && this !in Below(sh) && i < |sh.kids|
      requires |children| == i + 1 && (forall j :: 0 <= j <= i ==> children[j] == sh.kids[j].top) && e == children[i]
      requires ListOk(children, InSprite(this)) && Shaped(sh.kids[i]) && !e.disposed
      requires forall n :: n in Below(sh) ==> allocated(n)
      modifies Below(sh), this`children
      modifies (if canvas == null then {} else {canvas})`renderPending, (if canvas == null then {} else {canvas})`scheduled
      ensures |children| == i && (forall j :: 0 <= j < i ==> children[j] == sh.kids[j].top)
      ensures ListOk(children, InSprite(this)) && Disposed(sh.kids[i]) && Loose(e)
      ensures forall n :: n in Below(sh) && n !in Nodes(sh.kids[i]) && (i == 0 || n != sh.kids[i - 1].top) ==> unchanged(n)
      ensures i > 0 ==> unchanged(sh.kids[i - 1].top`children, sh.kids[i - 1].top`disposed)
      decreases sh, 0
    {
      ghost var ks := sh.kids;
      LastLink(children, i);
      NextLink(children, i);
      RemoveLast(children);
      LastSeated(ks, i, InSprite(this));
      ForestApart(ks, i);
      e.DisposeUnlinked(ks[i]);
    }
  }

  /**
   * The dimension check of the stage constructor: a width or height that is
   * not a number becomes 300, and the construction throws (`None`) unless
   * both are positive.
   */
  function StageDimensions(w: Option<real>, h: Option<real>): (r: Option<(real, real)>)
    ensures var dw, dh := (if w.Some? then w.value else 300.0), (if h.Some? then h.value else 300.0);
            (r.Some? <==> dw > 0.0 && dh > 0.0) && (r.Some? ==> r.value == (dw, dh))
    ensures r.Some? ==> r.value.0 > 0.0 && r.value.1 > 0.0
    ensures w.None? && h.None? ==> r == Some((300.0, 300.0))
  {
    var dw := if w.Some? then w.value else 300.0;
    var dh := if h.Some? then h.value else 300.0;
    if dw <= 0.0 || dh <= 0.0 then None else Some((dw, dh))
  }

  /**
   * The stage of src/zCanvas.js. The platform's frame scheduler is the
   * number of frames requested from it that have neither run nor been
   * cancelled (`scheduled`); `RunFrame` is the scheduler running one.
   * Clocks are parameters.
   */
  class Stage {
    /** `_width` and `_height`: the size `setDimensions` recorded. */
    var width: real
    var height: real
    var animate: bool
    /** `_renderInterval`, a whole number of milliseconds. */
    var renderInterval: int
    var lastRender: int
    var renderPending: bool
    var disposed: bool
    var preventDefaults: bool
    var children: seq<Sprite>
    /** Frames requested from the platform scheduler and still outstanding. */
    var scheduled: nat

    /**
     * The constructor past its dimension check: `setDimensions` records the
     * size and invalidates, and an animated stage starts its render loop.
     */
    constructor (w: real, h: real, animated: bool, interval: int, now: int)
      requires w > 0.0 && h > 0.0 && interval > 0
      ensures width == w && height == h && animate == animated && renderInterval == interval
      ensures children == [] && !disposed && !preventDefaults
      ensures renderPending && scheduled == 1 && Coalesced()
      ensures lastRender == if animated && now > interval then Throttled(now, 0, interval) else 0
    {
      width, height, animate, renderInterval := w, h, animated, interval;
      lastRender, renderPending, disposed, preventDefaults := 0, false, false, false;
      children, scheduled := [], 0;
      new;
      Invalidate();
      if animate {
        var _ := Render(now);
      }
    }

    /**
     * The coalescing invariant of the pending flag: exactly one frame is
     * outstanding while a render is pending, and none otherwise.
     */
    ghost predicate Coalesced()
      reads this
    {
      scheduled == if renderPending then 1 else 0
    }

    /**
     * The state `invalidate` leaves, from the pending flag and frame count
     * it found: a frame is requested unless one is pending or the stage
     * animates anyway.
     */
    ghost predicate Invalidated(pending: bool, count: nat)
      reads this
    {
      renderPending == (pending || !animate) &&
      scheduled == count + (if !animate && !pending then 1 else 0)
    }

    /**
     * `invalidate`: asks for a frame unless one is pending or the render
     * loop runs anyway, so requests between two renders coalesce into one.
     */
    method Invalidate()
      modifies this`renderPending, this`scheduled
      ensures Invalidated(old(renderPending), old(scheduled))
      ensures old(Coalesced()) ==> Coalesced()
    {
      if !animate && !renderPending {
        renderPending := true;
        scheduled := scheduled + 1;
      }
    }

    /**
     * `render`: clears the pending flag; when more than one interval has
     * passed since the last frame it draws the display list by walking the
     * `next` links from the first child (`drawn`) and moves `lastRender`
     * back onto the interval grid; it asks for the next frame while the
     * stage animates and is not disposed. Updating and drawing a sprite is
     * not modelled.
     */
    method Render(now: int) returns (drawn: Option<seq<Sprite>>)
      requires renderInterval > 0 && LinksOk(children)
      modifies this`renderPending, this`lastRender, this`scheduled
      ensures drawn.Some? <==> now - old(lastRender) > renderInterval
      ensures drawn.Some? ==> drawn.value == children && lastRender == Throttled(now, old(lastRender), renderInterval)
      ensures drawn.None? ==> lastRender == old(lastRender)
      ensures renderPending == (!disposed && animate)
      ensures scheduled == old(scheduled) + if !disposed && animate then 1 else 0
    {
      var delta := now - lastRender;
      renderPending := false;
      drawn := None;
      if delta > renderInterval {
        lastRender := Throttled(now, lastRender, renderInterval);
        var order := DrawOrder();
        drawn := Some(order);
      }
      if !disposed && animate {
        renderPending := true;
        scheduled := scheduled + 1;
      }
    }

    /** The platform scheduler runs one outstanding frame: the frame's `render`. */
    method RunFrame(now: int) returns (drawn: Option<seq<Sprite>>)
      requires scheduled > 0 && renderInterval > 0 && LinksOk(children)
      modifies this`renderPending, this`lastRender, this`scheduled
      ensures old(Coalesced()) ==> Coalesced()
      ensures renderPending == (!disposed && animate)
      ensures drawn.Some? <==> now - old(lastRender) > renderInterval
    {
      scheduled := scheduled - 1;
      drawn := Render(now);
    }

    /** The draw walk of `render`: from the first child along the `next` links. */
    method DrawOrder() returns (order: seq<Sprite>)
      requires LinksOk(children)
      ensures order == children
    {
      order := [];
      var s: Sprite? := if |children| > 0 then children[0] else null;
      while s != null
        invariant |order| <= |children| && order == children[..|order|]
        invariant s == if |order| < |children| then children[|order|] else null
        decreases |children| - |order|
      {
        NextLink(children, |order|);
        order := order + [s];
        s := s.next;
      }
    }

    /**
     * `setAnimatable` with the pending guard of the distribution build:
     * switching animation on starts the render loop only when no frame is
     * pending, so at most one frame stays outstanding.
     */
    method SetAnimatable(value: bool, now: int) returns (drawn: Option<seq<Sprite>>)
      requires renderInterval > 0 && LinksOk(children)
      modifies this`animate, this`renderPending, this`lastRender, this`scheduled
      ensures animate == value
      ensures old(Coalesced()) ==> Coalesced()
      ensures !value || old(animate) || old(renderPending) ==>
                renderPending == old(renderPending) && scheduled == old(scheduled) &&
                lastRender == old(lastRender) && drawn.None?
      ensures value && !old(animate) && !old(renderPending) ==>
                renderPending == !disposed && (drawn.Some? <==> now - old(lastRender) > renderInterval)
    {
      var was := animate;
      animate := value;
      drawn := None;
      if value && !was && !renderPending {
        drawn := Render(now);
      }
    }

    /**
     * `setAnimatable` as src/zCanvas.js writes it: switching animation on
     * renders, and so asks for a frame, even while a frame is pending.
     */
    method SetAnimatableAsWritten(value: bool, now: int) returns (drawn: Option<seq<Sprite>>)
      requires renderInterval > 0 && LinksOk(children)
      modifies this`animate, this`renderPending, this`lastRender, this`scheduled
      ensures animate == value
      ensures !value || old(animate) ==>
                renderPending == old(renderPending) && scheduled == old(scheduled) && drawn.None?
      ensures value && !old(animate) ==>
                renderPending == !disposed && scheduled == old(scheduled) + (if disposed then 0 else 1)
    {
      var was := animate;
      animate := value;
      drawn := None;
      if value && !was {
        drawn := Render(now);
      }
    }

    /**
     * `dispose`: once only, marks the stage disposed, stops animating,
     * cancels the frame it last asked for (the latest outstanding one, if
     * any) and disposes its children from the last to the first, each of
     * which leaves the list through `removeChild`; the list ends empty. `ks`
     * are the shapes of the children's subtrees. Dropping the DOM listeners
     * is not modelled.
     */
    method Dispose(ghost ks: seq<Shape>)
      requires |ks| == |children| && (forall j :: 0 <= j < |ks| ==> children[j] == ks[j].top)
      requires ListOk(children, OnStage(this)) && Forest(ks)
      requires forall j :: 0 <= j < |ks| ==> Shaped(ks[j]) && !ks[j].top.disposed
      modifies this, Grove(ks, |ks|)
      ensures old(disposed) ==> unchanged(this)
      ensures !old(disposed) ==> disposed && !animate && children == []
      ensures !old(disposed) ==> forall j :: 0 <= j < |ks| ==> Disposed(ks[j]) && Loose(ks[j].top)
      ensures !old(disposed) ==> renderPending == (old(renderPending) || old(children) != [])
      ensures !old(disposed) ==>
                scheduled == (if old(scheduled) > 0 then old(scheduled) - 1 else 0) +
                             (if !old(renderPending) && old(children) != [] then 1 else 0)
    {
      if disposed {
        return;
      }
      disposed := true;
      animate := false;
      if scheduled > 0 {
        scheduled := scheduled - 1;
      }
      DisposeChildren(ks);
      children := [];
    }

    /** The loop of `dispose`: `children[i].dispose()` from the last child to the first. */
    method DisposeChildren(ghost ks: seq<Shape>)
      requires |ks| == |children| && (forall j :: 0 <= j < |ks| ==> children[j] == ks[j].top)
      requires ListOk(children, OnStage(this)) && Forest(ks) && !animate
      requires forall j :: 0 <= j < |ks| ==> Shaped(ks[j]) && !ks[j].top.disposed
      modifies this`children, this`renderPending, this`scheduled, Grove(ks, |ks|)
      ensures children == [] && forall j :: 0 <= j < |ks| ==> Disposed(ks[j]) && Loose(ks[j].top)
      ensures renderPending == (old(renderPending) || old(children) != [])
      ensures scheduled == old(scheduled) + if !old(renderPending) && old(children) != [] then 1 else 0
    {
      var i := |children|;
      while i > 0
        invariant 0 <= i <= |ks| && |children| == i && forall j :: 0 <= j < i ==> children[j] == ks[j].top
        invariant ListOk(children, OnStage(this))
        invariant forall j :: 0 <= j < i ==> Shaped(ks[j]) && !ks[j].top.disposed
        invariant forall j :: i <= j < |ks| ==> Disposed(ks[j]) && Loose(ks[j].top)
        invariant renderPending == (old(renderPending) || i < |ks|)
        invariant scheduled == old(scheduled) + if !old(renderPending) && i < |ks| then 1 else 0
        decreases i
      {
        i := i - 1;
        var e := children[i];
        DisposeChild(e, ks, i);
      }
    }

    /** One turn of the loop of `dispose`, `e` the last child left. */
    method DisposeChild(e: Sprite, ghost ks: seq<Shape>, ghost i: nat)
      requires Forest(ks) && i < |ks| && !animate
      requires |children| == i + 1 && (forall j :: 0 <= j <= i ==> children[j] == ks[j].top) && e == children[i]
      requires ListOk(children, OnStage(this))
      requires forall j :: 0 <= j <= i ==> Shaped(ks[j]) && !ks[j].top.disposed
      requires forall j :: i < j < |ks| ==> Disposed(ks[j]) && Loose(ks[j].top)
      modifies this`children, this`renderPending, this`scheduled, Grove(ks, |ks|)
      ensures |children| == i && (forall j :: 0 <= j < i ==> children[j] == ks[j].top)
      ensures ListOk(children, OnStage(this))
      ensures forall j :: 0 <= j < i ==> Shaped(ks[j]) && !ks[j].top.disposed
      ensures forall j :: i <= j < |ks| ==> Disposed(ks[j]) && Loose(ks[j].top)
      ensures renderPending && scheduled == old(scheduled) + if old(renderPending) then 0 else 1
    {
      GroveAllocated(ks);
      DisposeTurn(e, ks, i);
      TurnKept(Turn(ks, i));
    }

    /** The heap side of one turn: child `i` disposed and out of the list, nothing else of the forest touched. */
    method DisposeTurn(e: Sprite, ghost ks: seq<Shape>, ghost i: nat)
      requires Forest(ks) && i < |ks| && !animate
      requires |children| == i + 1 && (forall j :: 0 <= j <= i ==> children[j] == ks[j].top) && e == children[i]
      requires ListOk(children, OnStage(this)) && Shaped(ks[i]) && !e.disposed
      requires forall n :: n in Grove(ks, |ks|) ==> allocated(n)
      modifies this`children, this`renderPending, this`scheduled, Grove(ks, |ks|)
      ensures |children| == i && (forall j :: 0 <= j < i ==> children[j] == ks[j].top)
      ensures ListOk(children, OnStage(this)) && Disposed(ks[i]) && Loose(e)
      ensures renderPending && scheduled == old(scheduled) + if old(renderPending) then 0 else 1
      ensures forall n :: n in Grove(ks, |ks|) && n !in Nodes(ks[i]) && (i == 0 || n != ks[i - 1].top) ==> unchanged(n)
      ensures i > 0 ==> unchanged(ks[i - 1].top`children, ks[i - 1].top`disposed)
    {
      LastLink(children, i);
      NextLink(children, i);
      RemoveLast(children);
      LastSeated(ks, i, OnStage(this));
      ForestApart(ks, i);
      e.Dispose(ks[i]);
    }

    /** `getChildAt`: `undefined` (here `null`) outside the list. */
    function GetChildAt(index: int): (r: Sprite?)
      reads this
      ensures r != null <==> 0 <= index < |children|
      ensures r != null ==> r == children[index]
    {
      if 0 <= index < |children| then children[index] else null
    }

    /** `contains`: `indexOf(c) > -1`. */
    function Contains(c: Sprite): (r: bool)
      reads this
      ensures r <==> c in children
    {
      IndexOf(children, c) > -1
    }

    /**
     * `addChild`: links `c` behind the current last child, always clears its
     * `next`, hands it this stage as canvas and parent, appends it and
     * invalidates. An empty list leaves `c.last` as it was.
     */
    method AddChild(c: Sprite, ghost scene: set<Sprite>) returns (r: Stage)
      modifies this`children, c`last, c`next, c`canvas, c`parent
      modifies (if children == [] then {} else {children[|children| - 1]})`next
      modifies this`renderPending, this`scheduled
      ensures r == this && children == old(children) + [c]
      ensures c.parent == OnStage(this) && c.canvas == this && c.next == null
      ensures old(children) != [] ==> c.last == old(children[|children| - 1])
      ensures old(children) != [] && old(children[|children| - 1]) != c ==> old(children[|children| - 1]).next == c
      ensures old(children) == [] ==> c.last == old(c.last)
      ensures Invalidated(old(renderPending), old(scheduled))
      ensures old(Staged(this, scene)) && c in scene && old(c.parent) == Detached ==> Staged(this, scene)
    {
      ghost var a := Staging(this, c, scene, children);
      Attach(c, a);
      Invalidate();
      if old(c.parent) == Detached && c in scene && old(Staged(a.st, a.scene)) {
        StageAddKeepsStaged(a);
      }
      r := this;
    }

    /** The list part of `addChild`, with what it leaves alone spelled out over `a.scene`. */
    method Attach(c: Sprite, ghost a: Staging)
      requires a.st == this && a.c == c && a.before == children
      modifies this`children, c`last, c`next, c`canvas, c`parent
      modifies (if children == [] then {} else {children[|children| - 1]})`next
      ensures children == old(children) + [c]
      ensures c.parent == OnStage(this) && c.canvas == this && c.next == null
      ensures old(children) != [] ==> c.last == old(children[|children| - 1])
      ensures old(children) != [] && old(children[|children| - 1]) != c ==> old(children[|children| - 1]).next == c
      ensures old(children) == [] ==> c.last == old(c.last)
      ensures forall s :: s in a.scene && s != c ==> s.parent == old(s.parent) && s.last == old(s.last)
      ensures forall s :: s in a.scene && s != c && (a.before == [] || s != a.before[|a.before| - 1]) ==>
                s.next == old(s.next)
    {
      if |children| > 0 {
        var previous := children[|children| - 1];
        c.last := previous;
        previous.next := c;
      }
      c.next := null;
      c.canvas := this;
      c.parent := OnStage(this);
      children := children + [c];
    }

    /**
     * `removeChild`: detaches `c`, splices its first occurrence out of the
     * list, joins its neighbours, clears its links and invalidates. It
     * returns `c` and keeps the stage's display list well formed.
     */
    method RemoveChild(c: Sprite, ghost scene: set<Sprite>) returns (r: Sprite)
      modifies this`children, c`parent, c`canvas, c`last, c`next
      modifies (if c.last == null then {} else {c.last})`next, (if c.next == null then {} else {c.next})`last
      modifies this`renderPending, this`scheduled
      ensures r == c && children == RemoveFirst(old(children), c)
      ensures c.parent == Detached && c.canvas == null && c.last == null && c.next == null
      ensures old(c.last) != null && old(c.last) != c ==> old(c.last).next == old(c.next)
      ensures old(c.next) != null && old(c.next) != c ==> old(c.next).last == old(c.last)
      ensures Invalidated(old(renderPending), old(scheduled))
      ensures old(Staged(this, scene)) && c in old(children) ==> Staged(this, scene)
      ensures old(LinksOk(children) && Distinct(children)) && c in old(children) ==>
                LinksOk(children) && Distinct(children)
    {
      var k := IndexOf(children, c);
      ghost var u := Unstaging(this, c, scene, children, if k == -1 then 0 else k);
      Take(c, k, u);
      Invalidate();
      if k != -1 && old(Staged(u.st, u.scene)) {
        StageRemoveKeepsStaged(u);
      }
      r := c;
    }

    /** The list part of `removeChild`, with what it leaves alone spelled out over `u.scene`. */
    method Take(c: Sprite, k: int, ghost u: Unstaging)
      requires k == IndexOf(children, c) && u.st == this && u.c == c && u.before == children
      modifies this`children, c`parent, c`canvas, c`last, c`next
      modifies (if c.last == null then {} else {c.last})`next, (if c.next == null then {} else {c.next})`last
      ensures children == RemoveFirst(old(children), c)
      ensures c.parent == Detached && c.canvas == null && c.last == null && c.next == null
      ensures old(c.last) != null && old(c.last) != c ==> old(c.last).next == old(c.next)
      ensures old(c.next) != null && old(c.next) != c ==> old(c.next).last == old(c.last)
      ensures forall s :: s in u.scene ==> s.children == old(s.children)
      ensures forall s :: s in u.scene && s != c ==> s.parent == old(s.parent)
      ensures forall s :: s in u.scene && s != c && s != old(c.last) ==> s.next == old(s.next)
      ensures forall s :: s in u.scene && s != c && s != old(c.next) ==> s.last == old(s.last)
      ensures old(LinksOk(children) && Distinct(children)) && k != -1 ==> LinksOk(children) && Distinct(children)
    {
      c.parent := Detached;
      c.canvas := null;
      children := Excise(c, children, k);
    }

    /**
     * `removeChildAt`: `removeChild(getChildAt(index))`; out of range that
     * is `removeChild(undefined)`, which throws before changing anything.
     */
    method RemoveChildAt(index: int, ghost scene: set<Sprite>) returns (threw: bool, r: Sprite?)
      modifies this`children, children`parent, children`canvas, children`last, children`next
      modifies (set s | s in children && s.last != null :: s.last)`next
      modifies (set s | s in children && s.next != null :: s.next)`last
      modifies this`renderPending, this`scheduled
      ensures threw <==> !(0 <= index < |old(children)|)
      ensures threw ==> children == old(children) && r == null && renderPending == old(renderPending)
      ensures !threw ==> r == old(children[index]) && children == RemoveFirst(old(children), r) &&
                         r.parent == Detached && r.canvas == null && r.last == null && r.next == null
      ensures !threw && old(Staged(this, scene)) ==> Staged(this, scene)
    {
      var c := GetChildAt(index);
      if c == null {
        return true, null;
      }
      r := RemoveChild(c, scene);
      threw := false;
    }

    /**
     * `getChildrenUnderPoint`: the children whose box strictly overlaps the
     * query rectangle (and, with `onlyCollidables`, that are collidable),
     * collected from the last child to the first.
     */
    method GetChildrenUnderPoint(x: real, y: real, w: real, h: real, onlyCollidables: bool)
      returns (out: seq<Sprite>)
      ensures out == UnderPoint(children, Rect(x, y, w, h), onlyCollidables)
    {
      ghost var q := Rect(x, y, w, h);
      out := [];
      var i := |children|;
      while i > 0
        invariant 0 <= i <= |children|
        invariant out == UnderPoint(children[i..], q, onlyCollidables)
      {
        i := i - 1;
        var child := children[i];
        UnderPointFront(children, i, q, onlyCollidables);
        if child.left < x + w && child.left + child.width > x && child.top < y + h && child.top + child.height > y {
          if !onlyCollidables || (onlyCollidables && child.collidable) {
            out := out + [child];
          }
        }
      }
      assert children[0..] == children;
    }

    /**
     * `handleInteraction`: offers the event at `(x, y)` to the children from
     * the last one back along the `last` links, then asks for a render with
     * `invalidate`. A mouse event stops at the first child that handles it; a
     * touch event is offered to every child. An error thrown by a child ends
     * the dispatch before the render request. `offered` lists the children
     * the event reached and `outcomes` what each reported.
     */
    method HandleInteraction(x: real, y: real, ev: EventType, now: int, ghost scene: set<Sprite>)
      returns (threw: bool, ghost offered: seq<Sprite>, ghost outcomes: seq<Outcome>)
      requires Staged(this, scene)
      modifies scene`isDragging, scene`dragStartTime, scene`dragStartOffset, scene`dragStartEvent,
               scene`left, scene`top, scene`width, scene`height, scene`hover
      modifies this`renderPending, this`scheduled
      ensures |outcomes| == |offered| <= |children|
      ensures forall k :: 0 <= k < |offered| ==> offered[k] == children[|children| - 1 - k]
      ensures threw <==> outcomes != [] && outcomes[|outcomes| - 1] == Threw
      ensures forall k :: 0 <= k < |outcomes| - 1 ==> outcomes[k] != Threw && (IsMouse(ev) ==> outcomes[k] == Unhandled)
      ensures !threw && |offered| < |children| ==> IsMouse(ev) && offered != [] && outcomes[|outcomes| - 1].Handled?
      ensures threw ==> renderPending == old(renderPending) && scheduled == old(scheduled)
      ensures !threw ==> Invalidated(old(renderPending), old(scheduled))
    {
      threw, offered, outcomes := Offer(x, y, ev, now, scene);
      if !threw {
        Invalidate();
      }
    }

    /** One child's turn in the dispatch: its `handleInteraction`, with only its frame kept. */
    method OfferTo(child: Sprite, x: real, y: real, ev: EventType, now: int, ghost scene: set<Sprite>)
      returns (outcome: Outcome)
      requires Tree(scene) && child in scene && Root(child, scene)
      modifies scene`isDragging, scene`dragStartTime, scene`dragStartOffset, scene`dragStartEvent,
               scene`left, scene`top, scene`width, scene`height, scene`hover
    {
      ghost var byChild;
      outcome, byChild := child.HandleInteraction(x, y, ev, now, scene);
    }

    /** A dispatch changes no link, so the list stays staged over `scene`. */
    twostate lemma StageKept(scene: set<Sprite>)
      requires forall s :: s in scene ==> old(allocated(s))
      requires old(Staged(this, scene))
      requires unchanged(this`children) && forall s :: s in scene ==> unchanged(s`children, s`parent, s`last, s`next)
      ensures Staged(this, scene)
    {
    }

    /** The dispatch loops of `handleInteraction`, from the last child back. */
    method Offer(x: real, y: real, ev: EventType, now: int, ghost scene: set<Sprite>)
      returns (threw: bool, ghost offered: seq<Sprite>, ghost outcomes: seq<Outcome>)
      requires Staged(this, scene)
      modifies scene`isDragging, scene`dragStartTime, scene`dragStartOffset, scene`dragStartEvent,
               scene`left, scene`top, scene`width, scene`height, scene`hover
      ensures |outcomes| == |offered| <= |children|
      ensures forall k :: 0 <= k < |offered| ==> offered[k] == children[|children| - 1 - k]
      ensures threw <==> outcomes != [] && outcomes[|outcomes| - 1] == Threw
      ensures forall k :: 0 <= k < |outcomes| - 1 ==> outcomes[k] != Threw && (IsMouse(ev) ==> outcomes[k] == Unhandled)
      ensures !threw && |offered| < |children| ==> IsMouse(ev) && offered != [] && outcomes[|outcomes| - 1].Handled?
    {
      threw, offered, outcomes := false, [], [];
      var n := |children|;
      if n > 0 {
        var child: Sprite? := children[n - 1];
        var i := n;
        while child != null
          invariant 0 <= i <= n == |children|
          invariant (child != null <==> i > 0) && (i > 0 ==> child == children[i - 1])
          invariant |outcomes| == |offered| == n - i
          invariant forall k :: 0 <= k < |offered| ==> offered[k] == children[n - 1 - k]
          invariant forall k :: 0 <= k < |outcomes| ==> outcomes[k] != Threw
          invariant IsMouse(ev) ==> forall k :: 0 <= k < |outcomes| ==> outcomes[k] == Unhandled
          decreases i
        {
          StageKept(scene);
          LastLink(children, i - 1);
          StagedRoot(this, scene, i - 1);
          var outcome := OfferTo(child, x, y, ev, now, scene);
          offered, outcomes := offered + [child], outcomes + [outcome];
          if outcome == Threw {
            return true, offered, outcomes;
          }
          if IsMouse(ev) && outcome != Unhandled {
            return false, offered, outcomes;
          }
          child := child.last;
          i := i - 1;
        }
      }
    }

    /**
     * `checkCollision(sprite, r, g, b, a, x, y, w, h)`: reads a strip of the
     * canvas on each side of the sprite and reports which sides show a pixel
     * with the asked channel values, as the code 0 to 3. Falsy coordinates
     * default to the sprite's, falsy thicknesses to 1. The canvas pixels over
     * a box are the input `image`. The strips are placed as written: the right
     * and lower ones start a thickness past the sprite's edge (see
     * `Pixels.ProbesAsWritten`; `Pixels.ProbesAround` places them against it).
     * A strip over which `getImageData` throws ends the call (`threw`, see
     * `Pixels.StripsThrow`), and a strip of negative area finds nothing.
     */
    method CheckCollision(sprite: Sprite, want: Pixels.Channels, ax: Option<real>, ay: Option<real>,
                          aw: Option<real>, ah: Option<real>, image: Rect -> seq<Pixels.Rgba>)
      returns (code: int, threw: bool)
      ensures var x, y := Pixels.OrDefault(ax, sprite.left), Pixels.OrDefault(ay, sprite.top);
              var w, h := Pixels.OrDefault(aw, 1.0), Pixels.OrDefault(ah, 1.0);
              var p := Pixels.ProbesAsWritten(x, y, w, h, sprite.width, sprite.height);
              (threw <==> Pixels.StripsThrow(p, image, want)) &&
              (!threw ==> code == Pixels.StripCode(p, image, want))
    {
      var x := Pixels.OrDefault(ax, sprite.left);
      var y := Pixels.OrDefault(ay, sprite.top);
      var w := Pixels.OrDefault(aw, 1.0);
      var h := Pixels.OrDefault(ah, 1.0);
      var p := Pixels.ProbesAsWritten(x, y, w, h, sprite.width, sprite.height);
      var horizontal, vertical;
      horizontal, threw := Pixels.InternalCheck(p.toLeft, image(p.toLeft), want);
      if threw {
        return 0, true;
      }
      vertical, threw := Pixels.InternalCheck(p.below, image(p.below), want);
      if threw {
        return 0, true;
      }
      if !horizontal {
        horizontal, threw := Pixels.InternalCheck(p.toRight, image(p.toRight), want);
        if threw {
          return 0, true;
        }
      }
      if !vertical {
        vertical, threw := Pixels.InternalCheck(p.above, image(p.above), want);
        if threw {
          return 0, true;
        }
      }
      if !horizontal && !vertical {
        return 0, false;
      }
      if horizontal {
        if vertical {
          return 3, false;
        }
        return 1, false;
      }
      return 2, false;
    }
  }

  /**
   * One coordinate as `setBounds` places it in an area of size `area`: with
   * `keep` it is clamped so that the sprite stays inside (or, when the sprite
   * is the larger, so that it covers the area from its far edge); without,
   * a coordinate beyond the area moves on by half the sprite's extent.
   */
  function Fit(t: real, extent: real, area: real, keep: bool): (r: real)
    ensures keep ==> Min(0.0, area - extent) <= r <= area - extent
    ensures keep && 0.0 <= t <= area - extent ==> r == t
    ensures keep && extent >= area ==> r == area - extent
    ensures keep && t < Min(0.0, area - extent) ==> r == Min(0.0, area - extent)
    ensures keep && t > area - extent ==> r == area - extent
    ensures !keep && t > area ==> r == t + extent * 0.5
    ensures !keep && t <= area ==> r == t
  {
    if keep then Min(area - extent, Max(t, Min(0.0, -(extent - area))))
    else if t > area then t + 0.5 * extent
    else t
  }

  /**
   * One coordinate of `setBounds` as written when there is no constraint: the
   * area is read as `canvas.width`/`canvas.height`, properties the stage
   * does not have, so the area is `undefined` (`area == None`). `None` as
   * the result stands for NaN.
   */
  function FitAsWritten(t: real, extent: real, area: Option<real>, keep: bool): (r: Option<real>)
    ensures area.Some? ==> r == Some(Fit(t, extent, area.value, keep))
    ensures area.None? && keep ==> r.None?
    ensures area.None? && !keep ==> r == Some(t)
  {
    if area.Some? then Some(Fit(t, extent, area.value, keep))
    else if keep then None
    else Some(t)
  }

  /**
   * With no constraint, `setBounds` as written sends every sprite that keeps
   * in bounds to NaN, and places one that does not unshifted even past the
   * stage's far edge, where `Fit` against the stage's extent `area` shifts
   * it on; within a constraint the two agree.
   */
  lemma FitAsWrittenLosesStage(t: real, extent: real, area: real, keep: bool)
    ensures FitAsWritten(t, extent, Some(area), keep) == Some(Fit(t, extent, area, keep))
    ensures keep ==> FitAsWritten(t, extent, None, keep).None?
    ensures !keep && t > area && extent != 0.0 ==>
              FitAsWritten(t, extent, None, keep) == Some(t) != Some(Fit(t, extent, area, keep))
    ensures !keep && t <= area ==> FitAsWritten(t, extent, None, keep) == Some(Fit(t, extent, area, keep))
  {
  }

  /**
   * The drag state machine of this generation's `handleInteraction` for one
   * event reaching an interactive sprite, given whether it is draggable,
   * whether a drag is in progress, whether the event lies in its closed
   * bounds and the time since the drag started. A release ends a drag
   * whether or not the sprite is still draggable; only a draggable sprite
   * follows the pointer.
   */
  function DistStep(draggable: bool, dragging: bool, ev: EventType, inside: bool, elapsed: int): (a: Action)
    ensures a.EndDrag? <==> dragging && IsRelease(ev)
    ensures a.EndDrag? ==> (a.click <==> elapsed < 250)
    ensures a == StartDrag <==> !dragging && inside && IsPress(ev)
    ensures a == Move <==> draggable && dragging && !IsRelease(ev)
    ensures a == Ignore <==> !(dragging && (IsRelease(ev) || draggable)) && !(!dragging && inside && IsPress(ev))
  {
    if dragging && IsRelease(ev) then EndDrag(elapsed < 250)
    else if inside && !dragging && IsPress(ev) then StartDrag
    else if draggable && dragging then Move
    else Ignore
  }

  /**
   * The link part of `removeChild` (sprite and stage alike): the neighbours
   * of `c` are joined to each other and the links of `c` are cleared; no
   * other sprite of `cs` changes its links.
   */
  method Unlink(c: Sprite, ghost cs: seq<Sprite>)
    modifies c`last, c`next
    modifies (if c.last == null then {} else {c.last})`next, (if c.next == null then {} else {c.next})`last
    ensures c.last == null && c.next == null
    ensures old(c.last) != null && old(c.last) != c ==> old(c.last).next == old(c.next)
    ensures old(c.next) != null && old(c.next) != c ==> old(c.next).last == old(c.last)
    ensures forall s :: s in cs && s != c && s != old(c.last) ==> s.next == old(s.next)
    ensures forall s :: s in cs && s != c && s != old(c.next) ==> s.last == old(s.last)
  {
    var previous, following := c.last, c.next;
    if previous != null {
      previous.next := following;
    }
    if following != null {
      following.last := previous;
    }
    c.last, c.next := null, null;
  }

  /**
   * The list part of `removeChild` (sprite and stage alike): `cs` without
   * the first occurrence of `c`, found at `k`, and the neighbours of `c`
   * joined. A well-linked list that held `c` once stays well linked.
   */
  method Excise(c: Sprite, cs: seq<Sprite>, k: int) returns (ds: seq<Sprite>)
    requires k == IndexOf(cs, c)
    modifies c`last, c`next
    modifies (if c.last == null then {} else {c.last})`next, (if c.next == null then {} else {c.next})`last
    ensures ds == RemoveFirst(cs, c)
    ensures c.last == null && c.next == null
    ensures old(c.last) != null && old(c.last) != c ==> old(c.last).next == old(c.next)
    ensures old(c.next) != null && old(c.next) != c ==> old(c.next).last == old(c.last)
    ensures old(LinksOk(cs) && Distinct(cs)) && k != -1 ==> LinksOk(ds) && Distinct(ds)
  {
    ghost var u := Removal(cs, if k == -1 then 0 else k, c);
    Unlink(c, cs);
    if k == -1 {
      ds := cs;
    } else {
      ds := cs[..k] + cs[k + 1..];
      if old(LinksOk(u.cs) && Distinct(u.cs)) {
        UnlinkKeepsLinks(u);
        assert ds == u.cs[..u.k] + u.cs[u.k + 1..];
      }
    }
  }

  /** One `removeChild` step: `c`, the child at `k` of `cs`, taken out. */
  datatype Removal = Removal(cs: seq<Sprite>, k: nat, c: Sprite)

  /** Child `i` of a root and the sprites below the root, for `ChildrenKept`. */
  datatype Place = Place(rest: set<Sprite>, i: nat)

  /** A list `cs` of container `pa`, as the frame lemma below takes it. */
  datatype Listing = Listing(cs: seq<Sprite>, pa: Parent)

  /** A well-formed list none of whose sprites changed is still well formed. */
  twostate lemma ListKept(l: Listing)
    requires forall k :: 0 <= k < |l.cs| ==> old(allocated(l.cs[k]))
    requires old(ListOk(l.cs, l.pa)) && forall k :: 0 <= k < |l.cs| ==> unchanged(l.cs[k])
    ensures ListOk(l.cs, l.pa)
  {
  }

  /**
   * Splicing out a child of a well-linked list and joining its neighbours
   * gives a well-linked list.
   */
  twostate lemma UnlinkKeepsLinks(u: Removal)
    requires old(LinksOk(u.cs) && Distinct(u.cs)) && u.k < |u.cs| && u.cs[u.k] == u.c
    requires u.c.last == null && u.c.next == null
    requires old(u.c.last) != null && old(u.c.last) != u.c ==> old(u.c.last).next == old(u.c.next)
    requires old(u.c.next) != null && old(u.c.next) != u.c ==> old(u.c.next).last == old(u.c.last)
    requires forall s :: s in u.cs && s != u.c && s != old(u.c.last) ==> s.next == old(s.next)
    requires forall s :: s in u.cs && s != u.c && s != old(u.c.next) ==> s.last == old(s.last)
    ensures LinksOk(u.cs[..u.k] + u.cs[u.k + 1..]) && Distinct(u.cs[..u.k] + u.cs[u.k + 1..])
  {
    assert Unlinked(u);
    UnlinkKeepsLast(u);
    UnlinkKeepsNext(u);
    var ds := u.cs[..u.k] + u.cs[u.k + 1..];
    forall i, j | 0 <= i < j < |ds|
      ensures ds[i] != ds[j]
    {
      assert ds[i] == u.cs[if i < u.k then i else i + 1] && ds[j] == u.cs[if j < u.k then j else j + 1];
      assert Distinct(u.cs);
    }
  }

  /** The facts `UnlinkKeepsLinks` starts from, as one predicate for its parts. */
  twostate predicate Unlinked(u: Removal)
    reads u.cs
  {
    old(LinksOk(u.cs) && Distinct(u.cs)) && u.k < |u.cs| && u.cs[u.k] == u.c &&
    u.c.last == null && u.c.next == null &&
    (old(u.c.last) != null && old(u.c.last) != u.c ==> old(u.c.last).next == old(u.c.next)) &&
    (old(u.c.next) != null && old(u.c.next) != u.c ==> old(u.c.next).last == old(u.c.last)) &&
    (forall s :: s in u.cs && s != u.c && s != old(u.c.last) ==> s.next == old(s.next)) &&
    (forall s :: s in u.cs && s != u.c && s != old(u.c.next) ==> s.last == old(s.last))
  }

  twostate lemma UnlinkKeepsLast(u: Removal)
    requires Unlinked(u)
    ensures var ds := u.cs[..u.k] + u.cs[u.k + 1..];
            forall i {:trigger ds[i].last} :: 0 <= i < |ds| ==> ds[i].last == (if i == 0 then null else ds[i - 1])
  {
    var Removal(cs, k, c) := u;
    var ds := cs[..k] + cs[k + 1..];
    assert old(forall i {:trigger cs[i].last} :: 0 <= i < |cs| ==> cs[i].last == (if i == 0 then null else cs[i - 1]));
    assert old(c.last) == (if k == 0 then null else cs[k - 1]);
    assert old(c.next) == (if k == |cs| - 1 then null else cs[k + 1]);
    forall i | 0 <= i < |ds|
      ensures ds[i].last == (if i == 0 then null else ds[i - 1])
    {
      if i < k {
        assert ds[i] == cs[i] && (0 < i ==> ds[i - 1] == cs[i - 1]);
        assert k + 1 < |cs| ==> cs[i] != cs[k + 1];
      } else if i == k {
        assert ds[i] == cs[k + 1] && (0 < i ==> ds[i - 1] == cs[k - 1]);
      } else {
        assert ds[i] == cs[i + 1] && ds[i - 1] == cs[i];
        assert cs[i + 1] != cs[k + 1];
      }
    }
  }

  twostate lemma UnlinkKeepsNext(u: Removal)
    requires Unlinked(u)
    ensures var ds := u.cs[..u.k] + u.cs[u.k + 1..];
            forall i {:trigger ds[i].next} :: 0 <= i < |ds| ==> ds[i].next == (if i == |ds| - 1 then null else ds[i + 1])
  {
    var Removal(cs, k, c) := u;
    var ds := cs[..k] + cs[k + 1..];
    assert old(forall i {:trigger cs[i].next} :: 0 <= i < |cs| ==> cs[i].next == (if i == |cs| - 1 then null else cs[i + 1]));
    assert old(c.last) == (if k == 0 then null else cs[k - 1]);
    assert old(c.next) == (if k == |cs| - 1 then null else cs[k + 1]);
    forall i | 0 <= i < |ds|
      ensures ds[i].next == (if i == |ds| - 1 then null else ds[i + 1])
    {
      if i < k - 1 {
        assert ds[i] == cs[i] && ds[i + 1] == cs[i + 1];
        assert cs[i] != cs[k - 1];
      } else if i == k - 1 {
        assert ds[i] == cs[k - 1] && (i + 1 < |ds| ==> ds[i + 1] == cs[k + 1]);
      } else {
        assert ds[i] == cs[i + 1] && (i + 1 < |ds| ==> ds[i + 1] == cs[i + 2]);
        assert k > 0 ==> cs[i + 1] != cs[k - 1];
      }
    }
  }

  // ---------------------------------------------------------------------------
  // The stage's display list

  /**
   * The display list of `st` is well formed over the sprite tree `scene`:
   * its children are sprites of the scene, listed once each, linked in
   * array order, and know the stage as their parent.
   */
  ghost predicate Staged(st: Stage, scene: set<Sprite>)
    reads st`children, st.children`parent, st.children`last, st.children`next
    reads scene`children, scene`parent, scene`last, scene`next
  {
    Tree(scene) && Distinct(st.children) && LinksOk(st.children) &&
    forall i :: 0 <= i < |st.children| ==> st.children[i] in scene && st.children[i].parent == OnStage(st)
  }

  /** A child of a staged list is listed by no sprite of the scene. */
  lemma StagedRoot(st: Stage, scene: set<Sprite>, i: nat)
    requires Staged(st, scene) && i < |st.children|
    ensures st.children[i] in scene && Root(st.children[i], scene)
  {
  }

  /** One stage `addChild` step: `c` appended to `before`, the list of `st`. */
  datatype Staging = Staging(st: Stage, c: Sprite, scene: set<Sprite>, before: seq<Sprite>)

  twostate predicate StagingStep(a: Staging)
    reads a.st, a.scene
  {
    var Staging(st, c, scene, before) := a;
    old(Staged(st, scene)) && c in scene && old(c.parent) == Detached &&
    old(st.children) == before && st.children == before + [c] &&
    c.parent == OnStage(st) && c.next == null &&
    (before != [] ==> c.last == before[|before| - 1] && before[|before| - 1].next == c) &&
    (before == [] ==> c.last == old(c.last)) &&
    (forall s :: s in scene ==> s.children == old(s.children)) &&
    (forall s :: s in scene && s != c ==> s.parent == old(s.parent) && s.last == old(s.last)) &&
    (forall s :: s in scene && s != c && (before == [] || s != before[|before| - 1]) ==> s.next == old(s.next))
  }

  /** Appending a detached sprite of the scene to a well-formed stage list keeps it well formed. */
  twostate lemma StageAddKeepsStaged(a: Staging)
    requires old(Staged(a.st, a.scene)) && a.c in a.scene && old(a.c.parent) == Detached
    requires old(a.st.children) == a.before && a.st.children == a.before + [a.c]
    requires a.c.parent == OnStage(a.st) && a.c.next == null
    requires a.before != [] ==> a.c.last == a.before[|a.before| - 1]
    requires a.before != [] && a.before[|a.before| - 1] != a.c ==> a.before[|a.before| - 1].next == a.c
    requires a.before == [] ==> a.c.last == old(a.c.last)
    requires forall s :: s in a.scene ==> s.children == old(s.children)
    requires forall s :: s in a.scene && s != a.c ==> s.parent == old(s.parent) && s.last == old(s.last)
    requires forall s :: s in a.scene && s != a.c && (a.before == [] || s != a.before[|a.before| - 1]) ==>
               s.next == old(s.next)
    ensures Staged(a.st, a.scene)
  {
    assert a.before != [] ==> old(a.before[|a.before| - 1].parent) == OnStage(a.st);
    assert StagingStep(a);
    StageAddKeepsTree(a);
    StageAddKeepsList(a);
  }

  twostate lemma StageAddKeepsTree(a: Staging)
    requires StagingStep(a)
    ensures Tree(a.scene)
  {
    var Staging(st, c, scene, before) := a;
    assert forall i :: 0 <= i < |before| ==> old(before[i].parent) == OnStage(st);
    forall s, i | s in scene && 0 <= i < |s.children|
      ensures s.children[i].parent == InSprite(s)
      ensures s.children[i].last == old(s.children[i].last) && s.children[i].next == old(s.children[i].next)
    {
      assert s.children[i] == old(s.children[i]) && old(s.children[i].parent) == InSprite(s);
    }
    forall s | s in scene
      ensures LinksOk(s.children)
    {
      assert old(LinksOk(s.children));
    }
  }

  twostate lemma StageAddKeepsList(a: Staging)
    requires StagingStep(a)
    ensures Distinct(a.st.children) && LinksOk(a.st.children)
    ensures forall i :: 0 <= i < |a.st.children| ==> a.st.children[i] in a.scene && a.st.children[i].parent == OnStage(a.st)
  {
    var Staging(st, c, scene, before) := a;
    StageAddKeepsDistinct(a);
    assert forall i :: 0 <= i < |before| ==> old(before[i].parent) == OnStage(st) && before[i] != c;
    assert old(LinksOk(st.children));
    assert before == [] ==> old(c.last) == null;
    StageAddKeepsLinks(a);
    StageAddKeepsMembers(a);
  }

  twostate lemma StageAddKeepsDistinct(a: Staging)
    requires StagingStep(a)
    ensures Distinct(a.st.children)
  {
    var Staging(st, c, scene, before) := a;
    assert forall i :: 0 <= i < |before| ==> old(before[i].parent) == OnStage(st);
    assert old(Distinct(st.children));
  }

  /** The links of the list before the append are kept, and `c` is linked behind its last sprite. */
  twostate lemma StageAddKeepsLinks(a: Staging)
    requires old(LinksOk(a.before)) && a.st.children == a.before + [a.c] && a.c.next == null
    requires forall i {:trigger a.before[i].last} :: 0 <= i < |a.before| ==> a.before[i].last == old(a.before[i].last)
    requires forall i {:trigger a.before[i].next} :: 0 <= i < |a.before| - 1 ==> a.before[i].next == old(a.before[i].next)
    requires a.before != [] ==> a.before[|a.before| - 1].next == a.c && a.c.last == a.before[|a.before| - 1]
    requires a.before == [] ==> a.c.last == null
    ensures LinksOk(a.st.children)
  {
    AppendLinks(a.before, a.c);
  }

  twostate lemma StageAddKeepsMembers(a: Staging)
    requires StagingStep(a)
    ensures forall i :: 0 <= i < |a.st.children| ==> a.st.children[i] in a.scene && a.st.children[i].parent == OnStage(a.st)
  {
    var Staging(st, c, scene, before) := a;
    assert forall i :: 0 <= i < |before| ==> old(before[i].parent) == OnStage(st) && before[i] != c;
  }

  // ---------------------------------------------------------------------------
  // Disposal

  /** The sprite a container is, if it is one. */
  ghost function UpSprite(pa: Parent): set<Sprite>
  {
    if pa.InSprite? then {pa.sprite} else {}
  }

  /** The stage a container is, if it is one. */
  ghost function UpStage(pa: Parent): set<Stage>
  {
    if pa.OnStage? then {pa.stage} else {}
  }

  /** The display list of container `pa`; a detached sprite has none. */
  ghost function Siblings(pa: Parent): seq<Sprite>
    reads UpSprite(pa), UpStage(pa)
  {
    match pa
    case Detached => []
    case InSprite(p) => p.children
    case OnStage(st) => st.children
  }

  /** `cs` is a well-formed list of container `pa`: once each, linked in order, each knowing `pa`. */
  ghost predicate ListOk(cs: seq<Sprite>, pa: Parent)
    reads cs`parent, cs`last, cs`next
  {
    Distinct(cs) && LinksOk(cs) && forall i :: 0 <= i < |cs| ==> cs[i].parent == pa
  }

  /** Container `pa` is not a sprite of `scene`. */
  predicate Outside(pa: Parent, scene: set<Sprite>)
  {
    !(pa.InSprite? && pa.sprite in scene)
  }

  /**
   * The shape of the subtree a sprite heads: the sprite and, in order, the
   * shapes of the subtrees of its children.
   */
  datatype Shape = Shape(top: Sprite, kids: seq<Shape>)

  /** The sprites of a shape. */
  ghost function Nodes(sh: Shape): set<Sprite>
    decreases sh, 2
  {
    {sh.top} + Below(sh)
  }

  /** The sprites of the kids' subtrees. */
  ghost function Below(sh: Shape): set<Sprite>
    decreases sh, 1
  {
    Grove(sh.kids, |sh.kids|)
  }

  /** The sprites of the first `n` shapes of `ks`. */
  ghost function Grove(ks: seq<Shape>, n: nat): set<Sprite>
    requires n <= |ks|
    decreases ks, 0, n
  {
    if n == 0 then {} else Grove(ks, n - 1) + Nodes(ks[n - 1])
  }

  /** A shape among the first `n` has its sprites among theirs. */
  lemma {:induction false} GroveHas(ks: seq<Shape>, n: nat, i: nat)
    requires i < n <= |ks|
    ensures Nodes(ks[i]) <= Grove(ks, n)
    decreases n
  {
    if i < n - 1 {
      GroveHas(ks, n - 1, i);
    }
  }

  /** Every kid has its sprites below the top. */
  lemma KidsBelow(sh: Shape)
    ensures forall i :: 0 <= i < |sh.kids| ==> Nodes(sh.kids[i]) <= Below(sh)
  {
    forall i | 0 <= i < |sh.kids|
      ensures Nodes(sh.kids[i]) <= Below(sh)
    {
      GroveHas(sh.kids, |sh.kids|, i);
    }
  }

  /** A sprite among those of the first `n` shapes is among those of one of them. */
  lemma {:induction false} GroveOf(ks: seq<Shape>, n: nat, x: Sprite) returns (i: nat)
    requires n <= |ks| && x in Grove(ks, n)
    ensures i < n && x in Nodes(ks[i])
    decreases n
  {
    if x in Nodes(ks[n - 1]) {
      i := n - 1;
    } else {
      i := GroveOf(ks, n - 1, x);
    }
  }

  /** The subtrees of `ks` are apart from each other and their tops are not below them. */
  ghost predicate Forest(ks: seq<Shape>)
  {
    (forall i :: 0 <= i < |ks| ==> ks[i].top !in Below(ks[i])) &&
    (forall i, j :: 0 <= i < j < |ks| ==> Nodes(ks[i]) !! Nodes(ks[j]))
  }

  /** The subtrees of `ks` form a forest and `x` is in none of them. */
  ghost predicate Apart(ks: seq<Shape>, x: Sprite)
  {
    (forall i :: 0 <= i < |ks| ==> x !in Nodes(ks[i])) && Forest(ks)
  }

  /**
   * The sprites of `sh` form the tree it describes: the top lists exactly
   * the tops of the kids, in order, linked, and they know their parent and
   * are not disposed; the kids' subtrees are apart, and each is shaped in
   * turn. Of the top only its list is read, so its own links, parent and
   * flag may change freely.
   */
  ghost predicate Shaped(sh: Shape)
    reads sh.top`children, Below(sh)
    decreases sh
  {
    KidsBelow(sh);
    var x, ks := sh.top, sh.kids;
    |x.children| == |ks| &&
    (forall i :: 0 <= i < |ks| ==> x.children[i] == ks[i].top) &&
    Apart(ks, x) && x !in Below(sh) &&
    (forall i :: 0 <= i < |ks| ==> ks[i].top.parent == InSprite(x) && !ks[i].top.disposed) &&
    LinksOk(x.children) &&
    (forall i :: 0 <= i < |ks| ==> Shaped(ks[i]))
  }

  /**
   * `sh` is shaped and its top sits once in the well-formed list of a
   * container outside the subtree, whose other members are outside it too.
   */
  ghost predicate Seated(sh: Shape)
    reads sh.top`children, Below(sh)
    reads sh.top`parent, UpSprite(sh.top.parent), UpStage(sh.top.parent)
    reads Siblings(sh.top.parent)`parent, Siblings(sh.top.parent)`last, Siblings(sh.top.parent)`next
  {
    var pa := sh.top.parent;
    Shaped(sh) && UpSprite(pa) !! Nodes(sh) &&
    (pa != Detached ==>
       sh.top in Siblings(pa) && ListOk(Siblings(pa), pa) &&
       forall s :: s in Siblings(pa) && s != sh.top ==> s !in Nodes(sh))
  }

  /** What `dispose` leaves of the subtree `sh`: all disposed, detached and empty; below the top, unlinked too. */
  ghost predicate Disposed(sh: Shape)
    reads sh.top`disposed, sh.top`parent, sh.top`children, Below(sh)
  {
    sh.top.disposed && sh.top.parent == Detached && sh.top.children == [] &&
    forall n :: n in Below(sh) ==> n.disposed && n.parent == Detached && n.children == [] && Loose(n)
  }

  /** A sprite with no sibling links and no canvas. */
  ghost predicate Loose(s: Sprite)
    reads s
  {
    s.last == null && s.next == null && s.canvas == null
  }

  /** A shaped subtree none of whose sprites changed is still shaped. */
  twostate lemma ShapedFrame(sh: Shape)
    requires forall n :: n in Below(sh) ==> old(allocated(n))
    requires old(Shaped(sh)) && unchanged(Below(sh)) && unchanged(sh.top`children)
    ensures Shaped(sh)
  {
  }

  /** A disposed subtree none of whose sprites changed is still disposed. */
  twostate lemma DisposedFrame(sh: Shape)
    requires forall n :: n in Nodes(sh) ==> old(allocated(n))
    requires old(Disposed(sh) && Loose(sh.top)) && unchanged(Nodes(sh))
    ensures Disposed(sh) && Loose(sh.top)
  {
  }

  /** One turn of a `dispose` loop: the child at `i` of a list whose subtrees are `ks`. */
  datatype Turn = Turn(ks: seq<Shape>, i: nat)

  /**
   * A turn that changed only the subtree of child `i` and the `next` link of
   * the child before it keeps the children before `i` shaped and those
   * after it disposed.
   */
  twostate lemma TurnKept(t: Turn)
    requires Forest(t.ks) && t.i < |t.ks|
    requires forall n :: n in Grove(t.ks, |t.ks|) ==> old(allocated(n))
    requires forall n :: n in Grove(t.ks, |t.ks|) && n !in Nodes(t.ks[t.i]) && (t.i == 0 || n != t.ks[t.i - 1].top) ==> unchanged(n)
    requires t.i > 0 ==> unchanged(t.ks[t.i - 1].top`children, t.ks[t.i - 1].top`disposed)
    requires old(forall j :: 0 <= j < t.i ==> Shaped(t.ks[j]) && !t.ks[j].top.disposed)
    requires old(forall j :: t.i < j < |t.ks| ==> Disposed(t.ks[j]) && Loose(t.ks[j].top))
    ensures forall j :: 0 <= j < t.i ==> Shaped(t.ks[j]) && !t.ks[j].top.disposed
    ensures forall j :: t.i < j < |t.ks| ==> Disposed(t.ks[j]) && Loose(t.ks[j].top)
  {
    var i, ks := t.i, t.ks;
    forall j | 0 <= j < i
      ensures Shaped(ks[j]) && !ks[j].top.disposed
    {
      GroveHas(ks, |ks|, j);
      ShapedFrame(ks[j]);
    }
    forall j | i < j < |ks|
      ensures Disposed(ks[j]) && Loose(ks[j].top)
    {
      GroveHas(ks, |ks|, j);
      DisposedFrame(ks[j]);
    }
  }

  /** The sprites of a shape are allocated, as the shape itself is. */
  lemma NodesAllocated(sh: Shape)
    ensures forall n :: n in Nodes(sh) ==> allocated(n)
    ensures forall n :: n in Below(sh) ==> allocated(n)
    decreases sh
  {
    assert allocated(sh.top);
    forall n | n in Below(sh)
      ensures allocated(n)
    {
      var i := GroveOf(sh.kids, |sh.kids|, n);
      NodesAllocated(sh.kids[i]);
    }
  }

  /**
   * The `i`th subtree of a forest lies in the forest and apart from the
   * others, the top of the one before it is below no top of the forest, and
   * every sprite of the forest is allocated.
   */
  lemma ForestApart(ks: seq<Shape>, i: nat)
    requires Forest(ks) && i < |ks|
    ensures Nodes(ks[i]) <= Grove(ks, |ks|) && (i > 0 ==> ks[i - 1].top in Grove(ks, |ks|))
    ensures forall j :: 0 <= j < |ks| && j != i ==> Nodes(ks[j]) !! Nodes(ks[i])
    ensures i > 0 ==> forall j :: 0 <= j < |ks| ==> ks[i - 1].top !in Below(ks[j])
    ensures forall j, n :: 0 <= j < |ks| && n in Nodes(ks[j]) ==> allocated(n)
  {
    GroveHas(ks, |ks|, i);
    if i > 0 {
      GroveHas(ks, |ks|, i - 1);
    }
    forall j | 0 <= j < |ks|
      ensures forall n :: n in Nodes(ks[j]) ==> allocated(n)
    {
      NodesAllocated(ks[j]);
    }
    forall j | 0 <= j < |ks| && j != i
      ensures Nodes(ks[j]) !! Nodes(ks[i])
    {
      if j > i {
        assert Nodes(ks[i]) !! Nodes(ks[j]);
      }
    }
    if i > 0 {
      forall j | 0 <= j < |ks|
        ensures ks[i - 1].top !in Below(ks[j])
      {
        if j < i - 1 {
          assert Nodes(ks[j]) !! Nodes(ks[i - 1]);
        } else if j > i - 1 {
          assert Nodes(ks[i - 1]) !! Nodes(ks[j]);
        }
      }
    }
  }

  /** The sprites of a forest are allocated, as the forest itself is. */
  lemma GroveAllocated(ks: seq<Shape>)
    ensures forall n :: n in Grove(ks, |ks|) ==> allocated(n)
  {
    forall n | n in Grove(ks, |ks|)
      ensures allocated(n)
    {
      var i := GroveOf(ks, |ks|, n);
      NodesAllocated(ks[i]);
    }
  }

  /**
   * The last of a well-formed list of container `pa`, whose members are the
   * tops of a forest, is seated there when its subtree is shaped and the
   * container is outside that subtree.
   */
  lemma LastSeated(ks: seq<Shape>, i: nat, pa: Parent)
    requires Forest(ks) && i < |ks| && pa != Detached
    requires |Siblings(pa)| == i + 1 && (forall j :: 0 <= j <= i ==> Siblings(pa)[j] == ks[j].top)
    requires ListOk(Siblings(pa), pa) && Shaped(ks[i]) && UpSprite(pa) !! Nodes(ks[i])
    ensures Seated(ks[i])
  {
    forall s | s in Siblings(pa) && s != ks[i].top
      ensures s !in Nodes(ks[i])
    {
      var j :| 0 <= j <= i && Siblings(pa)[j] == s;
      assert Nodes(ks[j]) !! Nodes(ks[i]);
    }
  }

  /** A disposed, emptied top over disposed kids with loose tops is a disposed subtree. */
  lemma DisposedFromKids(sh: Shape)
    requires sh.top.disposed && sh.top.parent == Detached && sh.top.children == []
    requires forall j :: 0 <= j < |sh.kids| ==> Disposed(sh.kids[j]) && Loose(sh.kids[j].top)
    ensures Disposed(sh)
  {
    forall n | n in Below(sh)
      ensures n.disposed && n.parent == Detached && n.children == [] && Loose(n)
    {
      var i := GroveOf(sh.kids, |sh.kids|, n);
      assert Disposed(sh.kids[i]) && Loose(sh.kids[i].top);
    }
  }

  /** What `RemoveFirst` leaves of a list holding each sprite once: members of it other than `c`. */
  lemma RemoveFirstRest(cs: seq<Sprite>, c: Sprite)
    requires Distinct(cs)
    ensures forall i :: 0 <= i < |RemoveFirst(cs, c)| ==> RemoveFirst(cs, c)[i] in cs && RemoveFirst(cs, c)[i] != c
  {
    var k := IndexOf(cs, c);
    if k != -1 {
      var r := RemoveFirst(cs, c);
      forall i | 0 <= i < |r|
        ensures r[i] in cs && r[i] != c
      {
        if i < k {
          assert r[i] == cs[i];
        } else {
          assert r[i] == cs[i + 1];
        }
      }
    }
  }

  /** Taking the last sprite out of a list holding each sprite once leaves the rest. */
  lemma RemoveLast(cs: seq<Sprite>)
    requires |cs| > 0 && Distinct(cs)
    ensures RemoveFirst(cs, cs[|cs| - 1]) == cs[..|cs| - 1]
  {
    assert cs[|cs| - 1] !in cs[..|cs| - 1];
  }

  /** One stage `removeChild` step: `c`, first found at `k` in `before`, the list of `st`, taken out. */
  datatype Unstaging = Unstaging(st: Stage, c: Sprite, scene: set<Sprite>, before: seq<Sprite>, k: nat)

  /** Taking a child out of a well-formed stage list keeps it, and the scene, well formed. */
  twostate lemma StageRemoveKeepsStaged(u: Unstaging)
    requires old(Staged(u.st, u.scene)) && u.k < |u.before| && u.before[u.k] == u.c && old(u.st.children) == u.before
    requires u.k == IndexOf(u.before, u.c) && u.st.children == RemoveFirst(u.before, u.c)
    requires u.c.parent == Detached && u.c.last == null && u.c.next == null
    requires old(u.c.last) != null && old(u.c.last) != u.c ==> old(u.c.last).next == old(u.c.next)
    requires old(u.c.next) != null && old(u.c.next) != u.c ==> old(u.c.next).last == old(u.c.last)
    requires forall s :: s in u.scene ==> s.children == old(s.children)
    requires forall s :: s in u.scene && s != u.c ==> s.parent == old(s.parent)
    requires forall s :: s in u.scene && s != u.c && s != old(u.c.last) ==> s.next == old(s.next)
    requires forall s :: s in u.scene && s != u.c && s != old(u.c.next) ==> s.last == old(s.last)
    ensures Staged(u.st, u.scene)
  {
    assert u.st.children == u.before[..u.k] + u.before[u.k + 1..];
    assert old(Tree(u.scene) && LinksOk(u.before) && Distinct(u.before));
    assert forall i :: 0 <= i < |u.before| ==> old(u.before[i] in u.scene && u.before[i].parent == OnStage(u.st));
    StageRemoveKeepsTree(u);
    StageRemoveKeepsList(u);
  }

  /** The sprites' own lists are untouched by a stage removal, so the scene stays a tree. */
  twostate lemma StageRemoveKeepsTree(u: Unstaging)
    requires old(Tree(u.scene)) && u.k < |u.before| && u.before[u.k] == u.c
    requires old(LinksOk(u.before)) && forall i :: 0 <= i < |u.before| ==> old(u.before[i].parent) == OnStage(u.st)
    requires u.c.parent == Detached && u.c.last == null && u.c.next == null
    requires forall s :: s in u.scene ==> s.children == old(s.children)
    requires forall s :: s in u.scene && s != u.c ==> s.parent == old(s.parent)
    requires forall s :: s in u.scene && s != u.c && s != old(u.c.last) ==> s.next == old(s.next)
    requires forall s :: s in u.scene && s != u.c && s != old(u.c.next) ==> s.last == old(s.last)
    ensures Tree(u.scene)
  {
    var Unstaging(st, c, scene, before, k) := u;
    assert old(c.last) != null ==> old(c.last) == before[k - 1] && old(before[k - 1].parent) == OnStage(st);
    assert old(c.next) != null ==> old(c.next) == before[k + 1] && old(before[k + 1].parent) == OnStage(st);
    forall s, i | s in scene && 0 <= i < |s.children|
      ensures s.children[i].parent == InSprite(s)
      ensures s.children[i].last == old(s.children[i].last) && s.children[i].next == old(s.children[i].next)
    {
      assert s.children[i] == old(s.children[i]) && old(s.children[i].parent) == InSprite(s);
    }
    forall s | s in scene
      ensures LinksOk(s.children)
    {
      assert old(LinksOk(s.children));
    }
  }

  twostate lemma StageRemoveKeepsList(u: Unstaging)
    requires old(Distinct(u.before) && LinksOk(u.before))
    requires forall i :: 0 <= i < |u.before| ==> u.before[i] in u.scene && old(u.before[i].parent) == OnStage(u.st)
    requires u.k < |u.before| && u.before[u.k] == u.c && u.st.children == u.before[..u.k] + u.before[u.k + 1..]
    requires u.c.last == null && u.c.next == null
    requires old(u.c.last) != null && old(u.c.last) != u.c ==> old(u.c.last).next == old(u.c.next)
    requires old(u.c.next) != null && old(u.c.next) != u.c ==> old(u.c.next).last == old(u.c.last)
    requires forall s :: s in u.scene && s != u.c ==> s.parent == old(s.parent)
    requires forall s :: s in u.scene && s != u.c && s != old(u.c.last) ==> s.next == old(s.next)
    requires forall s :: s in u.scene && s != u.c && s != old(u.c.next) ==> s.last == old(s.last)
    ensures Distinct(u.st.children) && LinksOk(u.st.children)
    ensures forall i :: 0 <= i < |u.st.children| ==> u.st.children[i] in u.scene && u.st.children[i].parent == OnStage(u.st)
  {
    var Unstaging(st, c, scene, before, k) := u;
    UnlinkKeepsLinks(Removal(before, k, c));
    forall i | 0 <= i < |st.children|
      ensures st.children[i] in scene && st.children[i].parent == OnStage(st)
    {
      if i < k {
        assert st.children[i] == before[..k][i] == before[i];
      } else {
        assert st.children[i] == before[k + 1..][i - k] == before[i + 1];
      }
    }
  }

  /**
   * The children of `cs` that `getChildrenUnderPoint` collects for the query
   * rectangle `q`, in the order it collects them: from the last to the first.
   */
  ghost function UnderPoint(cs: seq<Sprite>, q: Rect, onlyCollidables: bool): seq<Sprite>
    reads cs
  {
    if cs == [] then []
    else
      var s := cs[|cs| - 1];
      (if Hit(s, q, onlyCollidables) then [s] else []) + UnderPoint(cs[..|cs| - 1], q, onlyCollidables)
  }

  /** The collection over the children from `i` on: child `i` is collected after the later ones. */
  lemma UnderPointFront(cs: seq<Sprite>, i: nat, q: Rect, onlyCollidables: bool)
    requires i < |cs|
    ensures UnderPoint(cs[i..], q, onlyCollidables) ==
            UnderPoint(cs[i + 1..], q, onlyCollidables) + (if Hit(cs[i], q, onlyCollidables) then [cs[i]] else [])
  {
    assert cs[i..] == [cs[i]] + cs[i + 1..];
    UnderPointReversed([cs[i]], cs[i + 1..], q, onlyCollidables);
    assert [cs[i]][..0] == [];
  }

  /** The test `getChildrenUnderPoint` applies to one child. */
  ghost predicate Hit(s: Sprite, q: Rect, onlyCollidables: bool)
    reads s
  {
    StrictOverlap(s.Bounds(), q) && (!onlyCollidables || s.collidable)
  }

  /** A sprite is collected exactly when it is in the list and passes the test. */
  lemma {:induction false} UnderPointMembers(cs: seq<Sprite>, q: Rect, onlyCollidables: bool, s: Sprite)
    ensures s in UnderPoint(cs, q, onlyCollidables) <==> s in cs && Hit(s, q, onlyCollidables)
    decreases |cs|
  {
    if cs != [] {
      UnderPointMembers(cs[..|cs| - 1], q, onlyCollidables, s);
      assert cs == cs[..|cs| - 1] + [cs[|cs| - 1]];
    }
  }

  /** The hits among later children come before the hits among earlier ones. */
  lemma {:induction false} UnderPointReversed(cs: seq<Sprite>, ds: seq<Sprite>, q: Rect, onlyCollidables: bool)
    ensures UnderPoint(cs + ds, q, onlyCollidables) == UnderPoint(ds, q, onlyCollidables) + UnderPoint(cs, q, onlyCollidables)
    decreases |ds|
  {
    if ds == [] {
      assert cs + ds == cs;
    } else {
      var es := cs + ds;
      assert es[..|es| - 1] == cs + ds[..|ds| - 1];
      UnderPointReversed(cs, ds[..|ds| - 1], q, onlyCollidables);
    }
  }

  /**
   * Where `render` moves `lastRender` once more than an interval has passed:
   * back from `now` by the part of the elapsed time that fills no whole
   * interval, so that frames stay on the grid of intervals from `last`.
   */
  function Throttled(now: int, last: int, interval: int): (r: int)
    requires interval > 0 && now - last > interval
    ensures last + interval <= r <= now < r + interval
    ensures r - last == ((now - last) / interval) * interval
  {
    var d := now - last;
    var q := d / interval;
    assert d == q * interval + d % interval;
    assert q >= 1;
    assert q * interval >= interval;
    now - d % interval
  }

  /** The record `switchAnimation` starts: the entry's first column, its last column, counter 0. */
  function Started(e: SheetEntry): (a: Animation)
    ensures a.kind == Some(e) && a.col == e.col && a.counter == 0 && a.fpt == e.fpt
    ensures a.maxCol - a.col == e.amount - 1
    ensures a.InRange()
  {
    Animation(Some(e), e.col, e.col + (e.amount - 1), e.fpt, 0, e.onComplete)
  }

  /** The record after the counter of one tick, before any wrap. */
  function Ticked(a: Animation): (t: Animation)
    ensures t.kind == a.kind && t.maxCol == a.maxCol && t.fpt == a.fpt && t.onComplete == a.onComplete
    ensures a.counter + 1 == a.fpt ==> t.col == a.col + 1 && t.counter == 0
    ensures a.counter + 1 != a.fpt ==> t.col == a.col && t.counter == a.counter + 1
  {
    var t := a.(counter := a.counter + 1);
    if t.counter == t.fpt then t.(col := t.col + 1, counter := 0) else t
  }

  /** Whether one tick runs past the last column. */
  predicate Wraps(a: Animation) {
    Ticked(a).col > Ticked(a).maxCol
  }

  /** One tick of `updateAnimation` on a record that has an entry to wrap to. */
  function Tick(a: Animation): (t: Animation)
    requires !(a.kind.None? && Wraps(a))
    ensures Wraps(a) ==> t.col == a.kind.value.col
    ensures !Wraps(a) ==> t.col == Ticked(a).col
    ensures t.kind == a.kind && t.maxCol == a.maxCol && t.fpt == a.fpt
  {
    if Wraps(a) then Ticked(a).(col := a.kind.value.col) else Ticked(a)
  }

  /** A tick keeps the column in range: it either stays, moves one column on
      inside the range, or wraps to the first column. */
  lemma TickInRange(a: Animation)
    requires a.InRange()
    ensures !(a.kind.None? && Wraps(a)) && Tick(a).InRange()
  {
  }

  /** `indexOf`: the first position of `c` in `cs`, or -1. */
  function IndexOf(cs: seq<Sprite>, c: Sprite): (k: int)
    ensures -1 <= k < |cs|
    ensures k == -1 <==> c !in cs
    ensures k >= 0 ==> cs[k] == c && c !in cs[..k]
  {
    if cs == [] then -1
    else if cs[0] == c then 0
    else
      var k := IndexOf(cs[1..], c);
      assert cs[1..][..if k >= 0 then k else 0] == cs[1..if k >= 0 then k + 1 else 1];
      if k == -1 then -1 else k + 1
  }

  /** `cs` with its first occurrence of `c` spliced out, as `splice(indexOf(c), 1)` leaves it. */
  function RemoveFirst(cs: seq<Sprite>, c: Sprite): (r: seq<Sprite>)
    ensures c !in cs ==> r == cs
    ensures c in cs ==> |r| == |cs| - 1
  {
    var k := IndexOf(cs, c);
    if k == -1 then cs else cs[..k] + cs[k + 1..]
  }

  /** `RemoveFirst` drops exactly one copy of a sprite the list holds, and keeps the order of the rest. */
  lemma RemoveFirstMultiset(cs: seq<Sprite>, c: Sprite)
    requires c in cs
    ensures multiset(RemoveFirst(cs, c)) == multiset(cs) - multiset{c}
    ensures exists k :: 0 <= k < |cs| && cs[k] == c && c !in cs[..k] && RemoveFirst(cs, c) == cs[..k] + cs[k + 1..]
  {
    var k := IndexOf(cs, c);
    assert cs == cs[..k] + [c] + cs[k + 1..];
  }


  // ---------------------------------------------------------------------------
  // Display-list shape
  //
  // The sprites of the three generations are different classes with no common
  // type, so each module states these shape predicates over its own `Sprite`.
  // Here a sprite's parent is a `Parent` value (another sprite or the stage), so `Tree` and the
  // reach sets also follow a stage's list, which `ZSprite` has no counterpart for.

  /** The sibling links of `cs` follow its array order. */
  ghost predicate LinksOk(cs: seq<Sprite>)
    reads cs`last, cs`next
  {
    (forall i {:trigger cs[i].last} :: 0 <= i < |cs| ==> cs[i].last == (if i == 0 then null else cs[i - 1])) &&
    (forall i {:trigger cs[i].next} :: 0 <= i < |cs| ==> cs[i].next == (if i == |cs| - 1 then null else cs[i + 1]))
  }

  lemma NextLink(cs: seq<Sprite>, i: nat)
    requires LinksOk(cs) && i < |cs|
    ensures cs[i].next == if i + 1 < |cs| then cs[i + 1] else null
  {
  }

  lemma LastLink(cs: seq<Sprite>, i: nat)
    requires LinksOk(cs) && i < |cs|
    ensures cs[i].last == if i > 0 then cs[i - 1] else null
  {
  }

  /** A list whose links are right up to its end stays right when `c` is linked behind it. */
  lemma AppendLinks(cs: seq<Sprite>, c: Sprite)
    requires forall i {:trigger cs[i].last} :: 0 <= i < |cs| ==> cs[i].last == (if i == 0 then null else cs[i - 1])
    requires forall i {:trigger cs[i].next} :: 0 <= i < |cs| - 1 ==> cs[i].next == cs[i + 1]
    requires cs != [] ==> cs[|cs| - 1].next == c && c.last == cs[|cs| - 1]
    requires cs == [] ==> c.last == null
    requires c.next == null
    ensures LinksOk(cs + [c])
  {
    var ds := cs + [c];
    forall i | 0 <= i < |ds|
      ensures ds[i].last == (if i == 0 then null else ds[i - 1])
      ensures ds[i].next == (if i == |ds| - 1 then null else ds[i + 1])
    {
      assert 0 < i ==> ds[i - 1] == cs[i - 1];
      if i < |cs| {
        assert ds[i] == cs[i] && ds[i + 1] == if i + 1 < |cs| then cs[i + 1] else c;
        assert cs[i].last == (if i == 0 then null else cs[i - 1]);
      } else {
        assert ds[i] == c;
      }
    }
    assert LinksOk(ds);
  }

  ghost predicate Distinct(cs: seq<Sprite>) {
    forall i, j :: 0 <= i < j < |cs| ==> cs[i] != cs[j]
  }

  ghost predicate Closed(scene: set<Sprite>)
    reads scene`children
  {
    forall s, i :: s in scene && 0 <= i < |s.children| ==> s.children[i] in scene
  }

  /**
   * Every sprite of `scene` lists its children once each, is their parent, and
   * has links matching its array; a detached sprite has no sibling links.
   */
  ghost predicate Tree(scene: set<Sprite>)
    reads scene`children, scene`parent, scene`last, scene`next
  {
    Closed(scene) &&
    (forall s, i :: s in scene && 0 <= i < |s.children| ==> s.children[i].parent == InSprite(s)) &&
    (forall s :: s in scene ==> Distinct(s.children) && LinksOk(s.children)) &&
    (forall s :: s in scene && s.parent == Detached ==> s.last == null && s.next == null)
  }

  /** No sprite of `scene` lists `x` as a child. */
  ghost predicate Root(x: Sprite, scene: set<Sprite>)
    reads scene`children
  {
    forall s, i :: s in scene && 0 <= i < |s.children| ==> s.children[i] != x
  }

  /** Whether the walk follows child `c`: always, or only when it is not being dragged. */
  ghost predicate Follows(c: Sprite, stillOnly: bool)
    reads c`isDragging
  {
    !stillOnly || !c.isDragging
  }

  /** `x` and the descendants reached through followed children. */
  ghost function Reach(x: Sprite, scene: set<Sprite>, stillOnly: bool): set<Sprite>
    requires x in scene
    reads scene`children, scene`isDragging
    decreases scene, 0
  {
    {x} + ReachPrefix(x.children, |x.children|, scene - {x}, stillOnly)
  }

  /** What `Reach` gathers from the first `n` children in `cs`. */
  ghost function ReachPrefix(cs: seq<Sprite>, n: nat, scene: set<Sprite>, stillOnly: bool): set<Sprite>
    requires n <= |cs|
    reads scene`children, scene`isDragging
    decreases scene, n + 1
  {
    if n == 0 then {}
    else ReachPrefix(cs, n - 1, scene, stillOnly) +
         (if cs[n - 1] in scene && Follows(cs[n - 1], stillOnly) then Reach(cs[n - 1], scene, stillOnly) else {})
  }

  /** The sprites `setX`/`setY` of `x` move: `x` and its descendants reached
      through children that are not being dragged. */
  ghost function Moved(x: Sprite, scene: set<Sprite>): set<Sprite>
    requires x in scene
    reads scene`children, scene`isDragging
  {
    Reach(x, scene, true)
  }

  lemma {:induction false} ReachInScene(x: Sprite, scene: set<Sprite>, stillOnly: bool)
    requires x in scene
    ensures x in Reach(x, scene, stillOnly) && Reach(x, scene, stillOnly) <= scene
    decreases scene, 0
  {
    PrefixInScene(x.children, |x.children|, scene - {x}, stillOnly);
  }

  lemma {:induction false} PrefixInScene(cs: seq<Sprite>, n: nat, scene: set<Sprite>, stillOnly: bool)
    requires n <= |cs|
    ensures ReachPrefix(cs, n, scene, stillOnly) <= scene
    decreases scene, n + 1
  {
    if n > 0 {
      PrefixInScene(cs, n - 1, scene, stillOnly);
      if cs[n - 1] in scene && Follows(cs[n - 1], stillOnly) {
        ReachInScene(cs[n - 1], scene, stillOnly);
      }
    }
  }

  /** Every sprite gathered from a prefix comes from one followed child of it. */
  lemma {:induction false} PrefixMember(cs: seq<Sprite>, n: nat, scene: set<Sprite>, stillOnly: bool, y: Sprite)
    requires n <= |cs| && y in ReachPrefix(cs, n, scene, stillOnly)
    ensures exists k :: 0 <= k < n && cs[k] in scene && Follows(cs[k], stillOnly) &&
                        y in Reach(cs[k], scene, stillOnly)
  {
    if y !in ReachPrefix(cs, n - 1, scene, stillOnly) {
      assert cs[n - 1] in scene && Follows(cs[n - 1], stillOnly) && y in Reach(cs[n - 1], scene, stillOnly);
    } else {
      PrefixMember(cs, n - 1, scene, stillOnly, y);
    }
  }

  lemma {:induction false} PrefixHas(cs: seq<Sprite>, n: nat, scene: set<Sprite>, stillOnly: bool, k: nat)
    requires k < n <= |cs| && cs[k] in scene && Follows(cs[k], stillOnly)
    ensures Reach(cs[k], scene, stillOnly) <= ReachPrefix(cs, n, scene, stillOnly)
  {
    if k < n - 1 {
      PrefixHas(cs, n - 1, scene, stillOnly, k);
    }
  }

  /** In a tree, the parent of a reached sprite (other than the start) is reached too. */
  lemma {:induction false} ReachParent(x: Sprite, part: set<Sprite>, scene: set<Sprite>, stillOnly: bool, y: Sprite)
    requires Tree(scene) && part <= scene && x in part
    requires y in Reach(x, part, stillOnly) && y != x
    ensures y.parent.InSprite? && y.parent.sprite in Reach(x, part, stillOnly) && Follows(y, stillOnly)
    decreases part
  {
    var rest := part - {x};
    PrefixMember(x.children, |x.children|, rest, stillOnly, y);
    var k :| 0 <= k < |x.children| && x.children[k] in rest && Follows(x.children[k], stillOnly) &&
             y in Reach(x.children[k], rest, stillOnly);
    var c := x.children[k];
    PrefixHas(x.children, |x.children|, rest, stillOnly, k);
    if y != c {
      ReachParent(c, rest, scene, stillOnly, y);
    }
  }

  /** A reach stays inside any set that contains its start and is closed under followed children. */
  lemma {:induction false} ReachWithin(x: Sprite, part: set<Sprite>, stillOnly: bool, c: set<Sprite>)
    requires x in part && x in c
    requires forall s, i ::
               s in c && 0 <= i < |s.children| && s.children[i] in part && Follows(s.children[i], stillOnly)
               ==> s.children[i] in c
    ensures Reach(x, part, stillOnly) <= c
    decreases part
  {
    var rest := part - {x};
    forall y | y in ReachPrefix(x.children, |x.children|, rest, stillOnly)
      ensures y in c
    {
      PrefixMember(x.children, |x.children|, rest, stillOnly, y);
      var k :| 0 <= k < |x.children| && x.children[k] in rest && Follows(x.children[k], stillOnly) &&
               y in Reach(x.children[k], rest, stillOnly);
      ReachWithin(x.children[k], rest, stillOnly, c);
    }
  }

  /**
   * The display list of a root, split child by child: `before[k]` is what the
   * first `k` children move, `steps[k]` what child `k` moves, and each step is
   * apart from what came before it.
   */
  lemma MovedPieces(x: Sprite, scene: set<Sprite>) returns (before: seq<set<Sprite>>, steps: seq<set<Sprite>>)
    requires Tree(scene) && x in scene && Root(x, scene)
    ensures |before| == |x.children| + 1 && |steps| == |x.children|
    ensures before[0] == {}
    ensures forall k :: 0 <= k < |steps| ==>
              before[k + 1] == before[k] + steps[k] && steps[k] !! before[k] && steps[k] <= scene - {x}
    ensures forall k :: 0 <= k < |steps| ==>
              steps[k] == if x.children[k].isDragging then {} else Moved(x.children[k], scene - {x})
    ensures Moved(x, scene) == {x} + before[|steps|]
  {
    var rest := scene - {x};
    TreeWithoutRoot(x, scene);
    var cs, n := x.children, |x.children|;
    before := seq(n + 1, k reads rest`children, rest`isDragging requires 0 <= k <= n =>
                ReachPrefix(cs, k, rest, true));
    steps := seq(n, k reads rest`children, rest`isDragging requires 0 <= k < n && cs[k] in rest =>
                if cs[k].isDragging then {} else Moved(cs[k], rest));
    forall k | 0 <= k < n
      ensures steps[k] !! before[k] && steps[k] <= rest
    {
      ReachInScene(x.children[k], rest, true);
      PrefixDisjoint(x, scene, true, k, k);
    }
  }

  /** Removing a root keeps the rest of a tree a tree, with each child of the root a root. */
  lemma TreeWithoutRoot(p: Sprite, scene: set<Sprite>)
    requires Tree(scene) && p in scene && Root(p, scene)
    ensures Tree(scene - {p})
    ensures forall i :: 0 <= i < |p.children| ==> p.children[i] in scene - {p} && Root(p.children[i], scene - {p})
  {
  }

  /** The reaches of two distinct children of a root do not meet. */
  lemma SiblingsDisjoint(p: Sprite, scene: set<Sprite>, stillOnly: bool, i: nat, j: nat)
    requires Tree(scene) && p in scene && Root(p, scene)
    requires i < |p.children| && j < |p.children| && i != j
    ensures Reach(p.children[i], scene - {p}, stillOnly) !! Reach(p.children[j], scene - {p}, stillOnly)
  {
    var rest := scene - {p};
    TreeWithoutRoot(p, scene);
    var ci, cj := p.children[i], p.children[j];
    var a := Reach(ci, rest, stillOnly);
    ReachInScene(ci, rest, stillOnly);
    var outside := rest - a;
    forall s, k | s in outside && 0 <= k < |s.children| && s.children[k] in rest && Follows(s.children[k], stillOnly)
      ensures s.children[k] in outside
    {
      var d := s.children[k];
      if d in a && d != ci {
        ReachParent(ci, rest, scene, stillOnly, d);
      }
    }
    if cj in a {
      ReachParent(ci, rest, scene, stillOnly, cj);
    }
    ReachWithin(cj, rest, stillOnly, outside);
  }

  /** The reach of child `i` of a root misses what its earlier siblings reach. */
  lemma {:induction false} PrefixDisjoint(p: Sprite, scene: set<Sprite>, stillOnly: bool, i: nat, n: nat)
    requires Tree(scene) && p in scene && Root(p, scene)
    requires n <= i < |p.children|
    ensures Reach(p.children[i], scene - {p}, stillOnly) !! ReachPrefix(p.children, n, scene - {p}, stillOnly)
  {
    if n > 0 {
      PrefixDisjoint(p, scene, stillOnly, i, n - 1);
      if p.children[n - 1] in scene - {p} && Follows(p.children[n - 1], stillOnly) {
        SiblingsDisjoint(p, scene, stillOnly, i, n - 1);
      }
    }
  }

  datatype Append = Append(p: Sprite, c: Sprite, scene: set<Sprite>, before: seq<Sprite>)

  /** What an `addChild` step changes, between the state before it and now. */
  twostate predicate AppendStep(a: Append)
    reads a.scene
  {
    var Append(p, c, scene, before) := a;
    old(Tree(scene)) && p in scene && c in scene && c != p && old(c.parent) == Detached &&
    old(p.children) == before && p.children == before + [c] && c.parent == InSprite(p) &&
    (forall s :: s in scene && s != p ==> s.children == old(s.children)) &&
    (forall s :: s in scene && s != c ==> s.parent == old(s.parent) && s.last == old(s.last)) &&
    (forall s :: s in scene && s != c && (before == [] || s != before[|before| - 1]) ==> s.next == old(s.next)) &&
    (before != [] ==> c.last == before[|before| - 1] && c.next == null && before[|before| - 1].next == c) &&
    (before == [] ==> c.last == old(c.last) && c.next == old(c.next))
  }

  /** Appending a detached sprite of the scene to a list keeps the scene a tree. */
  twostate lemma AddKeepsTree(a: Append)
    requires old(Tree(a.scene)) && a.p in a.scene && a.c in a.scene && a.c != a.p && old(a.c.parent) == Detached
    requires old(a.p.children) == a.before && a.p.children == a.before + [a.c] && a.c.parent == InSprite(a.p)
    requires forall s :: s in a.scene && s != a.p ==> s.children == old(s.children)
    requires forall s :: s in a.scene && s != a.c ==> s.parent == old(s.parent) && s.last == old(s.last)
    requires forall s :: s in a.scene && s != a.c && (a.before == [] || s != a.before[|a.before| - 1]) ==> s.next == old(s.next)
    requires a.before != [] ==> a.c.last == a.before[|a.before| - 1] && a.c.next == null && a.before[|a.before| - 1].next == a.c
    requires a.before == [] ==> a.c.last == old(a.c.last) && a.c.next == old(a.c.next)
    ensures Tree(a.scene)
  {
    assert AppendStep(a);
    AddKeepsShape(a);
    AddKeepsOwnLinks(a);
    AddKeepsOtherLinks(a);
  }

  twostate lemma AddKeepsShape(a: Append)
    requires AppendStep(a)
    ensures Closed(a.scene)
    ensures forall s, i :: s in a.scene && 0 <= i < |s.children| ==> s.children[i].parent == InSprite(s)
    ensures forall s :: s in a.scene && s.parent == Detached ==> s.last == null && s.next == null
  {
    var Append(p, c, scene, before) := a;
    assert forall i :: 0 <= i < |before| ==> before[i] == old(p.children[i]);
    forall s, i | s in scene && 0 <= i < |s.children|
      ensures s.children[i].parent == InSprite(s)
    {
      if s == p && i == |before| {
        assert s.children[i] == c;
      } else {
        assert s.children[i] == old(s.children[i]) && old(s.children[i].parent) == InSprite(s);
      }
    }
  }

  /** The list that grew: `c` was in no list, so it is new to this one, linked at its end. */
  twostate lemma AddKeepsOwnLinks(a: Append)
    requires AppendStep(a)
    ensures Distinct(a.p.children) && LinksOk(a.p.children)
  {
    var Append(p, c, scene, before) := a;
    AddNotListed(a);
    AddKeepsLast(a);
    AddKeepsNext(a);
    assert before == [] ==> old(c.last == null && c.next == null);
    AppendLinks(before, c);
  }

  /** A detached sprite is in no list, in particular not in the one it joins. */
  twostate lemma AddNotListed(a: Append)
    requires AppendStep(a)
    ensures forall i :: 0 <= i < |a.before| ==> a.before[i] != a.c
    ensures Distinct(a.before + [a.c])
  {
    var Append(p, c, scene, before) := a;
    assert forall i :: 0 <= i < |before| ==> old(before[i].parent) == InSprite(p);
    assert old(Distinct(p.children));
  }

  twostate lemma AddKeepsLast(a: Append)
    requires AppendStep(a)
    ensures forall i {:trigger a.before[i].last} :: 0 <= i < |a.before| ==>
              a.before[i].last == (if i == 0 then null else a.before[i - 1])
  {
    var Append(p, c, scene, before) := a;
    AddNotListed(a);
    assert old(LinksOk(p.children));
  }

  twostate lemma AddKeepsNext(a: Append)
    requires AppendStep(a)
    ensures forall i {:trigger a.before[i].next} :: 0 <= i < |a.before| - 1 ==> a.before[i].next == a.before[i + 1]
  {
    var Append(p, c, scene, before) := a;
    AddNotListed(a);
    assert old(LinksOk(p.children) && Distinct(p.children));
    assert forall i :: 0 <= i < |before| - 1 ==> before[i] != before[|before| - 1];
  }

  twostate lemma AddKeepsOtherLinks(a: Append)
    requires AppendStep(a)
    ensures forall s :: s in a.scene && s != a.p ==> LinksOk(s.children)
  {
    var Append(p, c, scene, before) := a;
    assert forall s, i :: s in scene && 0 <= i < |old(s.children)| ==> old(s.children[i]) != c;
    assert before != [] ==> forall s, i :: s in scene && s != p && 0 <= i < |old(s.children)| ==>
      old(s.children[i]) != before[|before| - 1];
    forall s | s in scene && s != p
      ensures LinksOk(s.children)
    {
      assert forall k :: 0 <= k < |s.children| ==>
        s.children[k].last == old(s.children[k].last) && s.children[k].next == old(s.children[k].next);
    }
  }

  /**
   * `setAnimatable(true)` as written on a stage that is waiting for a frame:
   * a stage built without animation has asked for its first frame, and
   * switching animation on asks for a second one, so two frames are
   * outstanding and each starts a render loop of its own.
   */
  method TwoFramesWitness() returns (st: Stage)
    ensures st.renderPending && st.scheduled == 2 && !st.Coalesced()
  {
    st := new Stage(300.0, 300.0, false, 16, 0);
    var _ := st.SetAnimatableAsWritten(true, 0);
  }

  /** The same switch with `SetAnimatable` keeps one frame outstanding. */
  method OneFrameWitness() returns (st: Stage)
    ensures st.animate && st.scheduled == 1 && st.Coalesced()
  {
    st := new Stage(300.0, 300.0, false, 16, 0);
    var _ := st.SetAnimatable(true, 0);
  }

  /**
   * `getIntersection` as written for a box of size 10 at the origin and a
   * box of size 2 at (5, 5): the shared box is 2 by 2, but the width as
   * written is min(10, 2 + 2) - 5, which is negative.
   */
  method IntersectionWidthWitness() returns (a: Sprite, b: Sprite)
    ensures a.GetIntersectionAsWritten(b) == Some(Rect(5.0, 5.0, -1.0, 2.0))
    ensures a.GetIntersection(b) == Some(Rect(5.0, 5.0, 2.0, 2.0))
  {
    a := new Sprite(0.0, 0.0, 10.0, 10.0, false);
    b := new Sprite(5.0, 5.0, 2.0, 2.0, false);
    assert a.Bounds() == Rect(0.0, 0.0, 10.0, 10.0) && b.Bounds() == Rect(5.0, 5.0, 2.0, 2.0);
    assert a.CollidesWith(b);
  }
}
