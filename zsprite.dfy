/**
 * The scene node of src/ZSprite.js: a sprite with bounds, a display list of
 * children kept both as an array and as intrusive `last`/`next` sibling links,
 * a drag state machine, and bounding-box collision queries.
 *
 * Sprites are heap objects. Operations that recurse through a sprite's
 * descendants take a ghost `scene`: a set of sprites that is closed under
 * `children` and in which the sprite is a root (no member of the scene lists it
 * as a child). Each recursive call works on the scene without the caller, which
 * both bounds the recursion and rules out a display tree that contains itself.
 */
module ZSprite {
  import opened Wrappers
  import opened Geometry
  import opened Events

  /** The stage this generation of the sprite is drawn on; only its size is read. */
  class Canvas {
    var width: real
    var height: real

    constructor (w: real, h: real)
      ensures width == w && height == h
    {
      width, height := w, h;
    }
  }

  class Sprite {
    var left: real
    var top: real
    var width: real
    var height: real
    var collidable: bool
    var draggable: bool
    var keepInBounds: bool
    var isDragging: bool
    var dragStartTime: int
    var dragStartOffset: Point
    var dragStartEvent: Point
    /** `_children`: the display list, bottom first. */
    var children: seq<Sprite>
    /** Intrusive links to the previous and next sibling in the container. */
    var last: Sprite?
    var next: Sprite?
    var parent: Sprite?
    var canvas: Canvas?
    /** The one-shot flag of `dispose`. */
    var disposed: bool

    constructor (x: real, y: real, w: real, h: real, isCollidable: bool)
      ensures left == x && top == y && width == w && height == h
      ensures collidable == isCollidable && children == []
      ensures last == null && next == null && parent == null && canvas == null
      ensures !draggable && !keepInBounds && !isDragging && !disposed
    {
      left, top, width, height := x, y, w, h;
      collidable := isCollidable;
      children := [];
      last, next, parent, canvas := null, null, null, null;
      draggable, keepInBounds, isDragging, disposed := false, false, false, false;
      dragStartTime := 0;
      dragStartOffset, dragStartEvent := Point(0.0, 0.0), Point(0.0, 0.0);
    }

    function Bounds(): Rect
      reads this
    {
      Rect(left, top, width, height)
    }

    /** `collidesWith`: strict bounding-box overlap, never with itself. */
    function CollidesWith(other: Sprite): (r: bool)
      reads this, other
      ensures other == this ==> !r
      ensures other != this ==> (r <==> StrictOverlap(other.Bounds(), Bounds()))
    {
      if other == this then false
      else other.left < left + width && other.left + other.width > left &&
           other.top < top + height && other.top + other.height > top
    }

    /** `collidesWithEdge`: false against itself, otherwise the one-sided `EdgeTest`. */
    function CollidesWithEdge(other: Sprite, edge: real): (r: Option<bool>)
      reads this, other
      ensures other == this ==> r == Some(false)
      ensures other != this ==> r == EdgeTest(Bounds(), other.Bounds(), edge)
    {
      if other == this then Some(false) else EdgeTest(Bounds(), other.Bounds(), edge)
    }

    /** `contains`: a scan of the display list from its end. */
    method Contains(c: Sprite) returns (found: bool)
      ensures found <==> c in children
    {
      var i := |children|;
      while i > 0
        invariant 0 <= i <= |children|
        invariant c !in children[i..]
      {
        i := i - 1;
        if children[i] == c {
          return true;
        }
      }
      found := false;
    }

    /** `getChildAt`: the child at `index`, or `undefined` (here `null`). */
    function GetChildAt(index: int): (r: Sprite?)
      reads this
      ensures r != null <==> 0 <= index < |children|
      ensures r != null ==> r == children[index]
    {
      if 0 <= index < |children| then children[index] else null
    }

    /**
     * `addChild`: appends `c` to the display list, linking it behind the
     * current last child, and makes this sprite its parent and its canvas
     * this sprite's canvas. An empty list links nothing: `c` keeps whatever
     * links it had.
     */
    method AddChild(c: Sprite, ghost scene: set<Sprite>) returns (r: Sprite)
      modifies this`children, c`last, c`next, c`canvas, c`parent
      modifies (if children == [] then {} else {children[|children| - 1]})`next
      ensures r == this && children == old(children) + [c]
      ensures c.parent == this && c.canvas == canvas
      ensures old(children) != [] ==> c.last == old(children[|children| - 1]) && c.next == null
      ensures old(children) != [] && old(children[|children| - 1]) != c ==> old(children[|children| - 1]).next == c
      ensures old(children) == [] ==> c.last == old(c.last) && c.next == old(c.next)
      ensures old(LinkedTree(scene)) && this in scene && c in scene && c != this && old(c.parent) == null ==> LinkedTree(scene)
    {
      ghost var a := Append(this, c, scene, children);
      Attach(c, a);
      r := this;
      if old(LinkedTree(a.scene)) && a.p in a.scene && a.c in a.scene && a.c != a.p && old(a.c.parent) == null {
        AddKeepsTree(a);
      }
    }

    /**
     * The body of `addChild`, with what it leaves alone spelled out over the
     * sprites of `a.scene`.
     */
    method Attach(c: Sprite, ghost a: Append)
      requires a.p == this && a.c == c && a.before == children
      modifies this`children, c`last, c`next, c`canvas, c`parent
      modifies (if children == [] then {} else {children[|children| - 1]})`next
      ensures children == old(children) + [c]
      ensures c.parent == this && c.canvas == canvas
      ensures old(children) != [] ==> c.last == old(children[|children| - 1]) && c.next == null
      ensures old(children) != [] && old(children[|children| - 1]) != c ==> old(children[|children| - 1]).next == c
      ensures old(children) == [] ==> c.last == old(c.last) && c.next == old(c.next)
      ensures forall s :: s in a.scene && s != a.p ==> s.children == old(s.children)
      ensures forall s :: s in a.scene && s != a.c ==> s.parent == old(s.parent) && s.last == old(s.last)
      ensures forall s :: s in a.scene && s != a.c && (a.before == [] || s != a.before[|a.before| - 1]) ==>
                s.next == old(s.next)
    {
      if |children| > 0 {
        var previous := children[|children| - 1];
        c.last := previous;
        previous.next := c;
        c.next := null;
      }
      c.canvas := canvas;
      c.parent := this;
      children := children + [c];
    }

    /**
     * `removeChild` as written: detaches `c`, takes every occurrence of it
     * out of the list and relinks what remains, but leaves the `last` and
     * `next` links of `c` itself pointing into this list.
     */
    method RemoveChildAsWritten(c: Sprite)
      modifies this`children, c`parent, c`canvas, children`last, children`next
      ensures children == Without(old(children), c)
      ensures c.parent == null && c.canvas == null
      ensures c.last == old(c.last) && c.next == old(c.next)
      ensures Distinct(old(children)) ==> LinksOk(children)
    {
      c.parent := null;
      c.canvas := null;
      ghost var original := children;
      Splice(c);
      WithoutElements(original, c);
      ghost var distinct := Distinct(original);
      if distinct {
        WithoutDistinct(original, c);
      }
      Relink();
      assert distinct ==> LinksOk(children);
    }

    /**
     * `removeChild` with the removed sprite's own sibling links cleared too,
     * so that a detached sprite is linked to nothing and can join another list.
     */
    method RemoveChild(c: Sprite)
      modifies this`children, c`parent, c`canvas, c`last, c`next, children`last, children`next
      ensures children == Without(old(children), c) && c !in children
      ensures c.parent == null && c.canvas == null && c.last == null && c.next == null
      ensures Distinct(old(children)) ==> LinksOk(children)
    {
      RemoveChildAsWritten(c);
      WithoutElements(old(children), c);
      c.last := null;
      c.next := null;
    }

    /**
     * `removeChildAt`: `removeChild(getChildAt(index))`. Out of range that is
     * `removeChild(undefined)`, which throws before changing anything.
     */
    method RemoveChildAt(index: int) returns (threw: bool)
      modifies this`children, children`parent, children`canvas, children`last, children`next
      ensures threw <==> !(0 <= index < |old(children)|)
      ensures threw ==> children == old(children)
      ensures !threw ==> var c := old(children[index]);
                children == Without(old(children), c) && c !in children &&
                c.parent == null && c.canvas == null && c.last == null && c.next == null
      ensures !threw && Distinct(old(children)) ==> LinksOk(children)
    {
      var c := GetChildAt(index);
      if c == null {
        return true;
      }
      RemoveChild(c);
      threw := false;
    }

    /** The splicing pass of `removeChild`: takes every occurrence of `c` out of the list, from its end. */
    method Splice(c: Sprite)
      modifies this`children
      ensures children == Without(old(children), c)
    {
      ghost var original := children;
      var i := |children|;
      while i > 0
        invariant 0 <= i <= |children|
        invariant children[..i] == original[..i] && children[i..] == Without(original[i..], c)
        decreases i
      {
        i := i - 1;
        assert original[i..][1..] == original[i + 1..];
        assert children[i] == original[i] && children[i + 1..] == Without(original[i + 1..], c);
        if children[i] == c {
          children := children[..i] + children[i + 1..];
        } else {
          assert children[i..] == [original[i]] + children[i + 1..];
        }
      }
      assert children == children[0..] && original == original[0..];
    }

    /** The relinking pass of `removeChild`: sets the links of every child from its array position. */
    method Relink()
      modifies children`last, children`next
      ensures Distinct(children) ==> LinksOk(children)
    {
      var l := |children|;
      var i := 0;
      ghost var distinct := Distinct(children);
      while i < l
        invariant 0 <= i <= l == |children|
        invariant distinct ==> 0 < i ==> children[0].last == null
        invariant distinct ==> forall k :: 0 < k < i ==> children[k].last == children[k - 1]
        invariant distinct ==> forall k :: 0 <= k < i - 1 ==> children[k].next == children[k + 1]
        invariant distinct ==> i == l && l > 0 ==> children[l - 1].next == null
      {
        var sprite := children[i];
        if i > 0 {
          var previous := children[i - 1];
          sprite.last := previous;
          previous.next := sprite;
        } else {
          sprite.last := null;
        }
        if i == l - 1 {
          sprite.next := null;
        }
        i := i + 1;
      }
    }

    /**
     * The resize part of `updateImage` (the image itself is not modelled). A
     * non-zero `newWidth` or `newHeight` replaces that extent and moves the
     * sprite so that its centre stays put (zero, like an absent or NaN
     * argument, is falsy and leaves the extent alone). With `keepInBounds` and
     * some extent given, both coordinates are then clamped against the canvas;
     * with no canvas that read throws after the resize has happened.
     */
    method UpdateImage(newWidth: real, newHeight: real) returns (threw: bool)
      modifies this`left, this`top, this`width, this`height
      ensures width == (if newWidth != 0.0 then newWidth else old(width))
      ensures height == (if newHeight != 0.0 then newHeight else old(height))
      ensures threw <==> keepInBounds && (newWidth != 0.0 || newHeight != 0.0) && canvas == null
      ensures !(keepInBounds && (newWidth != 0.0 || newHeight != 0.0)) || threw ==>
                left == Recentred(old(left), old(width), newWidth) &&
                top == Recentred(old(top), old(height), newHeight)
      ensures keepInBounds && (newWidth != 0.0 || newHeight != 0.0) && !threw ==>
                left == ClampToStage(Recentred(old(left), old(width), newWidth), -(width - canvas.width)) &&
                top == ClampToStage(Recentred(old(top), old(height), newHeight), -(height - canvas.height))
    {
      if newWidth != 0.0 {
        var previous := width;
        width := newWidth;
        left := left - (newWidth * 0.5 - previous * 0.5);
      }
      if newHeight != 0.0 {
        var previous := height;
        height := newHeight;
        top := top - (newHeight * 0.5 - previous * 0.5);
      }
      threw := false;
      if keepInBounds && (newWidth != 0.0 || newHeight != 0.0) {
        if canvas == null {
          return true;
        }
        var minX := -(width - canvas.width);
        var minY := -(height - canvas.height);
        if left > 0.0 {
          left := 0.0;
        } else if left < minX {
          left := minX;
        }
        if top > 0.0 {
          top := 0.0;
        } else if top < minY {
          top := minY;
        }
      }
    }

    /**
     * `handleMove`: the drag target is the recorded start offset plus the
     * pointer's travel since the press, clamped with `keepInBounds` or, without
     * it, replaced by the pointer shifted by half the extent once it leaves
     * the stage; `setX` and `setY` then move the sprite and its still
     * children there. Reading the canvas size throws when there is no canvas.
     */
    method HandleMove(x: real, y: real, ghost scene: set<Sprite>) returns (threw: bool)
      requires Tree(scene) && this in scene && Root(this, scene)
      modifies scene`left, scene`top
      ensures threw <==> canvas == null
      ensures threw ==> forall s :: s in scene ==> s.left == old(s.left) && s.top == old(s.top)
      ensures !threw ==>
                left == MoveTarget(dragStartOffset.x, dragStartEvent.x, x, width, canvas.width, keepInBounds) &&
                top == MoveTarget(dragStartOffset.y, dragStartEvent.y, y, height, canvas.height, keepInBounds)
      ensures !threw ==> forall s :: s in scene ==>
                s.left == old(s.left) + (if s in old(Moved(this, scene)) then left - old(left) else 0.0) &&
                s.top == old(s.top) + (if s in old(Moved(this, scene)) then top - old(top) else 0.0)
    {
      if canvas == null {
        return true;
      }
      var theX := MoveTarget(dragStartOffset.x, dragStartEvent.x, x, width, canvas.width, keepInBounds);
      var theY := MoveTarget(dragStartOffset.y, dragStartEvent.y, y, height, canvas.height, keepInBounds);
      SetX(theX, scene);
      SetY(theY, scene);
      threw := false;
    }

    /**
     * `handleInteraction`: nothing for a sprite that is not draggable.
     * Otherwise the children are offered the event first, from the top of the
     * display list down along the `last` links, and the first that handles it
     * (or throws) ends the call. Only then does this sprite take its own drag
     * step (`DragStep`): the hit test uses its bounds as they were on entry.
     * `byChild` tells whether a child decided the outcome.
     */
    method HandleInteraction(ev: EventType, x: real, y: real, now: int, ghost scene: set<Sprite>)
      returns (r: Outcome, ghost byChild: bool)
      requires Tree(scene) && this in scene && Root(this, scene)
      modifies scene`isDragging, scene`dragStartTime, scene`dragStartOffset, scene`dragStartEvent,
               scene`left, scene`top
      ensures !draggable ==> r == Unhandled && !byChild
      ensures byChild ==> draggable && r != Unhandled
      ensures byChild ==> isDragging == old(isDragging) && left == old(left) && top == old(top) &&
                          dragStartTime == old(dragStartTime)
      ensures draggable && !byChild ==>
                var a := DragStep(old(isDragging), ev, ContainsClosed(old(Bounds()), x, y), now - old(dragStartTime));
                (a == Ignore ==> r == Unhandled && !isDragging) &&
                (a.EndDrag? ==> r == Handled((if a.click then [Click] else []) + [Release]) && !isDragging) &&
                (a == StartDrag ==> r == Handled([Press(x, y)]) && isDragging && dragStartTime == now &&
                                    dragStartOffset == Point(old(left), old(top)) && dragStartEvent == Point(x, y)) &&
                (a == Move ==> isDragging && (r == Threw <==> canvas == null)) &&
                (a == Move && r != Threw ==>
                   r == Handled([]) &&
                   left == MoveTarget(dragStartOffset.x, dragStartEvent.x, x, width, canvas.width, keepInBounds) &&
                   top == MoveTarget(dragStartOffset.y, dragStartEvent.y, y, height, canvas.height, keepInBounds))
      decreases scene, 1
    {
      byChild := false;
      if !draggable {
        return Unhandled, false;
      }
      var thisX, thisY := left, top;
      var found := OfferToChildren(ev, x, y, now, scene);
      if found != Unhandled {
        return found, true;
      }
      var inside := ContainsClosed(Rect(thisX, thisY, width, height), x, y);
      if isDragging && IsRelease(ev) {
        isDragging := false;
        var hooks := if now - dragStartTime < 250 then [Click] else [];
        return Handled(hooks + [Release]), false;
      }
      if inside && !isDragging && IsPress(ev) {
        isDragging := true;
        dragStartTime := now;
        dragStartOffset := Point(left, top);
        dragStartEvent := Point(x, y);
        return Handled([Press(x, y)]), false;
      }
      if isDragging {
        var threw := HandleMove(x, y, scene);
        return if threw then Threw else Handled([]), false;
      }
      r := Unhandled;
    }

    /**
     * The first half of `handleInteraction`: the children, from the last down
     * along the `last` links, until one reports something other than `Unhandled`.
     * None of this sprite's own fields change.
     */
    method OfferToChildren(ev: EventType, x: real, y: real, now: int, ghost scene: set<Sprite>) returns (found: Outcome)
      requires Tree(scene) && this in scene && Root(this, scene)
      modifies (scene - {this})`isDragging, (scene - {this})`dragStartTime, (scene - {this})`dragStartOffset,
               (scene - {this})`dragStartEvent, (scene - {this})`left, (scene - {this})`top
      ensures found != Unhandled ==> children != []
      decreases scene, 0
    {
      ghost var rest := scene - {this};
      TreeWithoutRoot(this, scene);
      found := Unhandled;
      var n := |children|;
      if n > 0 {
        var child: Sprite? := children[n - 1];
        var i := n;
        while child != null
          invariant 0 <= i <= n == |children|
          invariant (child != null <==> i > 0) && (i > 0 ==> child == children[i - 1])
          invariant Tree(rest)
          decreases i
        {
          LastLink(children, i - 1);
          var outcome, _ := child.HandleInteraction(ev, x, y, now, rest);
          if outcome != Unhandled {
            return outcome;
          }
          child := child.last;
          i := i - 1;
        }
      }
    }

    /** What `dispose` may change: the subtree in `scene`, the parent and the parent's list. */
    ghost function Footprint(scene: set<Sprite>): set<Sprite>
      reads this, parent
    {
      scene + if parent == null then {} else {parent} + set c | c in parent.children
    }

    /**
     * `dispose`: the one-shot guard (a second call does nothing), then
     * `disposeInternal`. The shape `scene` has on entry, `Hosted`, is kept;
     * sprites of `scene` outside the disposed subtree keep their parent, their
     * flag and, when they have no parent, their links.
     */
    method Dispose(ghost scene: set<Sprite>) returns (threw: bool)
      requires DisposeScene(this, scene)
      modifies Footprint(scene)
      ensures Hosted(scene) && disposed
      ensures old(parent) != null ==>
                ParentOf(old(parent)) && old(parent).parent == old(parent.parent) &&
                old(parent).disposed == old(parent.disposed)
      ensures old(parent) != null ==>
                old(parent).children == if old(disposed) then old(parent.children) else Without(old(parent.children), this)
      ensures forall s :: s in scene && s != this && old(s.parent) != null && old(s.parent) !in scene ==>
                s.parent == old(s.parent) && s.disposed == old(s.disposed)
      ensures forall s :: s in scene && s != this && old(s.parent) == null ==>
                s.parent == null && s.last == old(s.last) && s.next == old(s.next) && s.disposed == old(s.disposed)
      ensures old(disposed) ==> !threw && children == old(children) && parent == old(parent)
      ensures !old(disposed) && !threw ==> children == [] && parent == null
      ensures !old(disposed) && !threw ==> forall c :: c in old(children) && !old(c.disposed) ==>
                c.disposed && c.parent == null && c.last == null && c.next == null
      decreases scene, 3
    {
      if disposed {
        return false;
      }
      disposed := true;
      threw := DisposeInternal(scene);
    }

    /**
     * `disposeInternal`: leaves the parent's list, disposes the children from
     * the last to the first, clearing the links of each, and empties the list.
     * A child's disposal takes it out of this list, so an index can fall off
     * its end when the list held a child twice; `undefined.dispose()` throws.
     * A child already disposed is skipped by its own guard and stays listed
     * until the list is emptied, so only the others end detached.
     */
    method DisposeInternal(ghost scene: set<Sprite>) returns (threw: bool)
      requires DisposeScene(this, scene)
      modifies Footprint(scene)
      ensures Hosted(scene)
      ensures old(parent) != null ==>
                ParentOf(old(parent)) && old(parent).parent == old(parent.parent) &&
                old(parent).disposed == old(parent.disposed)
      ensures old(parent) != null ==> old(parent).children == Without(old(parent.children), this)
      ensures forall s :: s in scene && s != this && old(s.parent) != null && old(s.parent) !in scene ==>
                s.parent == old(s.parent) && s.disposed == old(s.disposed)
      ensures forall s :: s in scene && s != this && old(s.parent) == null ==>
                s.parent == null && s.last == old(s.last) && s.next == old(s.next) && s.disposed == old(s.disposed)
      ensures disposed == old(disposed)
      ensures !threw ==> children == [] && parent == null
      ensures !threw ==> forall c :: c in old(children) && !old(c.disposed) ==>
                c.disposed && c.parent == null && c.last == null && c.next == null
      decreases scene, 2
    {
      if parent != null {
        LeaveParent(scene);
      }
      threw := DisposeChildren(scene);
    }

    /**
     * The loop of `disposeInternal`, once this sprite has left its parent:
     * each child from the last to the first, then an empty list.
     */
    method DisposeChildren(ghost scene: set<Sprite>) returns (threw: bool)
      requires Hosted(scene) && this in scene && parent == null
      modifies scene
      ensures Hosted(scene) && parent == null && disposed == old(disposed)
      ensures forall s :: s in scene && s != this && old(s.parent) != null && old(s.parent) !in scene ==>
                s.parent == old(s.parent) && s.disposed == old(s.disposed)
      ensures forall s :: s in scene && s != this && old(s.parent) == null ==>
                s.parent == null && s.last == old(s.last) && s.next == old(s.next) && s.disposed == old(s.disposed)
      ensures !threw ==> children == []
      ensures !threw ==> forall c :: c in old(children) && !old(c.disposed) ==>
                c.disposed && c.parent == null && c.last == null && c.next == null
      decreases scene, 1
    {
      var i := |children|;
      while i > 0
        invariant Hosted(scene) && parent == null && disposed == old(disposed)
        invariant forall s :: s in scene && s != this && old(s.parent) != null && old(s.parent) !in scene ==>
                    s.parent == old(s.parent) && s.disposed == old(s.disposed)
        invariant forall s :: s in scene && s != this && old(s.parent) == null ==>
                    s.parent == null && s.last == old(s.last) && s.next == old(s.next) && s.disposed == old(s.disposed)
        invariant 0 <= i && forall k :: i <= k < |children| ==> children[k].disposed
        invariant forall c :: c in old(children) ==> c in scene && c != this
        invariant forall c :: c in children ==> c.disposed == old(c.disposed)
        invariant forall c :: c in old(children) && c !in children && !old(c.disposed) ==>
                    c.disposed && c.parent == null && c.last == null && c.next == null
        decreases i
      {
        i := i - 1;
        if i >= |children| {
          return true;
        }
        ghost var before := children;
        var child := children[i];
        var failed := DisposeChild(child, scene);
        if failed {
          return true;
        }
        WithoutTurn(before, child, i);
      }
      children := [];
      threw := false;
    }

    /** One turn of the loop of `disposeInternal`: dispose `child`, then clear its links. */
    method DisposeChild(child: Sprite, ghost scene: set<Sprite>) returns (threw: bool)
      requires Hosted(scene) && this in scene && parent == null && child in children
      modifies scene
      ensures Hosted(scene) && parent == null && disposed == old(disposed)
      ensures forall s :: s in scene && s != this && old(s.parent) != null && old(s.parent) !in scene ==>
                s.parent == old(s.parent) && s.disposed == old(s.disposed)
      ensures forall s :: s in scene && s != this && old(s.parent) == null ==>
                s.parent == null && s.last == old(s.last) && s.next == old(s.next) && s.disposed == old(s.disposed)
      ensures forall s :: s in old(children) && s != child ==> s.disposed == old(s.disposed)
      ensures children == if old(child.disposed) then old(children) else Without(old(children), child)
      ensures child.disposed
      ensures !threw ==> child.last == null && child.next == null
      ensures !old(child.disposed) && !threw ==> child.parent == null
      decreases scene, 0
    {
      NobodyListsDetached(this, scene);
      HostedWithout(this, scene);
      threw := child.Dispose(scene - {this});
      WithoutElements(old(children), child);
      if !threw {
        child.next := null;
        child.last := null;
      }
    }

    /**
     * The first step of `disposeInternal`: `parent.removeChild(this)`, as the
     * library writes it, so this sprite keeps its stale `last` and `next`.
     */
    method LeaveParent(ghost scene: set<Sprite>)
      requires DisposeScene(this, scene) && parent != null
      modifies Footprint(scene)
      ensures Hosted(scene) && parent == null && children == old(children)
      ensures last == old(last) && next == old(next)
      ensures ParentOf(old(parent)) && old(parent).parent == old(parent.parent) &&
              old(parent).disposed == old(parent.disposed)
      ensures old(parent).children == Without(old(parent.children), this)
      ensures forall s :: s in scene ==> s.disposed == old(s.disposed)
      ensures forall s :: s in scene && s != this ==> s.parent == old(s.parent)
      ensures forall s :: s in scene && s != this && old(s.parent) == null ==>
                s.last == old(s.last) && s.next == old(s.next)
    {
      var p := parent;
      NobodyListsDetached(this, scene);
      p.RemoveChildAsWritten(this);
      WithoutElements(old(p.children), this);
    }

    /**
     * `setX`: moves this sprite to `x` and shifts every child that is not being
     * dragged by the same distance, each through its own `setX`, so whole
     * subtrees follow; a dragged child and everything below it stay put.
     */
    method SetX(x: real, ghost scene: set<Sprite>)
      requires Tree(scene) && this in scene && Root(this, scene)
      modifies scene`left
      ensures forall s :: s in scene ==>
                s.left == old(s.left) + (if s in old(Moved(this, scene)) then x - old(left) else 0.0)
      decreases scene
    {
      var delta := x - left;
      ghost var rest := scene - {this};
      TreeWithoutRoot(this, scene);
      ghost var before, steps := MovedPieces(this, scene);
      left := x;
      if |children| > 0 {
        var child: Sprite? := children[0];
        var i := 0;
        while child != null
          invariant 0 <= i <= |children|
          invariant (child != null <==> i < |children|) && (i < |children| ==> child == children[i])
          invariant left == x
          invariant forall s :: s in rest ==> s.left == old(s.left) + (if s in before[i] then delta else 0.0)
          decreases |children| - i
        {
          ChildrenKept(Place(rest, i));
          NextLink(children, i);
          var following := child.next;
          if !child.isDragging {
            child.SetX(child.left + delta, rest);
          }
          child := following;
          i := i + 1;
        }
      }
    }

    /** `setY`: the vertical counterpart of `setX`. */
    method SetY(y: real, ghost scene: set<Sprite>)
      requires Tree(scene) && this in scene && Root(this, scene)
      modifies scene`top
      ensures forall s :: s in scene ==>
                s.top == old(s.top) + (if s in old(Moved(this, scene)) then y - old(top) else 0.0)
      decreases scene
    {
      var delta := y - top;
      ghost var rest := scene - {this};
      TreeWithoutRoot(this, scene);
      ghost var before, steps := MovedPieces(this, scene);
      top := y;
      if |children| > 0 {
        var child: Sprite? := children[0];
        var i := 0;
        while child != null
          invariant 0 <= i <= |children|
          invariant (child != null <==> i < |children|) && (i < |children| ==> child == children[i])
          invariant top == y
          invariant forall s :: s in rest ==> s.top == old(s.top) + (if s in before[i] then delta else 0.0)
          decreases |children| - i
        {
          ChildrenKept(Place(rest, i));
          NextLink(children, i);
          var following := child.next;
          if !child.isDragging {
            child.SetY(child.top + delta, rest);
          }
          child := following;
          i := i + 1;
        }
      }
    }
    /**
     * Moving sprites changes no link: child `i`, below this root, keeps its
     * place in `rest` and what it moves.
     */
    twostate lemma ChildrenKept(pl: Place)
      requires var Place(rest, i) := pl; forall s :: s in rest ==> old(allocated(s))
      requires var Place(rest, i) := pl; old(Tree(rest)) && i < old(|children|) && old(children[i] in rest && Root(children[i], rest))
      requires old(LinksOk(children)) && forall k :: 0 <= k < old(|children|) ==> old(children[k]) in pl.rest
      requires unchanged(this`children) && forall s :: s in pl.rest ==> unchanged(s`children, s`parent, s`last, s`next, s`isDragging)
      ensures var Place(rest, i) := pl; Tree(rest) && children[i] in rest && Root(children[i], rest) && LinksOk(children)
      ensures var Place(rest, i) := pl; Moved(children[i], rest) == old(Moved(children[i], rest))
    {
    }
  }

  /**
   * One coordinate after a resize in `updateImage`: a non-zero `extent`
   * replaces `previous` and the coordinate moves by half the growth, so the
   * centre stays where it was.
   */
  function Recentred(pos: real, previous: real, extent: real): (r: real)
    ensures extent != 0.0 ==> r + extent * 0.5 == pos + previous * 0.5
    ensures extent == 0.0 ==> r == pos
  {
    if extent != 0.0 then pos - (extent * 0.5 - previous * 0.5) else pos
  }

  /**
   * One coordinate of the `handleMove` target: `offset` is where the sprite
   * was at the press, `start` where the pointer was, `pos` where it is now.
   */
  function MoveTarget(offset: real, start: real, pos: real, extent: real, stage: real, keep: bool): (r: real)
    ensures keep ==> r == ClampToStage(offset + (pos - start), -(extent - stage))
    ensures keep && extent >= stage ==> -(extent - stage) <= r <= 0.0
    ensures !keep && 0.0 <= offset + (pos - start) <= stage ==> r == offset + (pos - start)
    ensures !keep && offset + (pos - start) < 0.0 ==> r == pos - extent * 0.5
    ensures !keep && offset + (pos - start) > stage && offset + (pos - start) >= 0.0 ==> r == pos + extent * 0.5
  {
    var target := offset + (pos - start);
    if keep then ClampToStage(target, -(extent - stage))
    else if target < 0.0 then pos - extent * 0.5
    else if target > stage then pos + extent * 0.5
    else target
  }

  /**
   * The drag state machine of `handleInteraction` for one event, given
   * whether a drag is in progress, whether the event lies in the sprite's
   * closed bounds and the time since the drag started.
   */
  function DragStep(dragging: bool, ev: EventType, inside: bool, elapsed: int): (a: Action)
    ensures a == StartDrag <==> !dragging && inside && IsPress(ev)
    ensures a.EndDrag? <==> dragging && IsRelease(ev)
    ensures a.EndDrag? ==> (a.click <==> elapsed < 250)
    ensures a == Move <==> dragging && !IsRelease(ev)
    ensures a == Ignore <==> !dragging && !(inside && IsPress(ev))
  {
    if dragging && IsRelease(ev) then EndDrag(elapsed < 250)
    else if inside && !dragging && IsPress(ev) then StartDrag
    else if dragging then Move
    else Ignore
  }

  /**
   * `removeChild` as written leaves stale links: take `b` out of a list
   * `[a, b]` and append it to an empty list, and its `last` still names `a`,
   * so walking the new list backwards from `b` wanders into the old one.
   */
  method StaleLinkWitness() returns (q: Sprite, b: Sprite)
    ensures q.children == [b] && b.last != null && !LinksOk(q.children)
  {
    var p := new Sprite(0.0, 0.0, 10.0, 10.0, false);
    var a := new Sprite(0.0, 0.0, 1.0, 1.0, false);
    b := new Sprite(0.0, 0.0, 1.0, 1.0, false);
    var _ := p.AddChild(a, {});
    var _ := p.AddChild(b, {});
    p.RemoveChildAsWritten(b);
    q := new Sprite(0.0, 0.0, 10.0, 10.0, false);
    var _ := q.AddChild(b, {});
    assert q.children[0].last == a;
  }

  /**
   * A sprite taken out of `[a, b]` by `removeChild` as written keeps its stale
   * `last`, yet it heads a tree of its own, so `setX` moves it.
   */
  method RemovedSpriteMoves() returns (b: Sprite)
    ensures b.parent == null && b.last != null && b.left == 5.0
  {
    var p := new Sprite(0.0, 0.0, 10.0, 10.0, false);
    var a := new Sprite(0.0, 0.0, 1.0, 1.0, false);
    b := new Sprite(0.0, 0.0, 1.0, 1.0, false);
    var _ := p.AddChild(a, {});
    var _ := p.AddChild(b, {});
    p.RemoveChildAsWritten(b);
    assert b.last == a;
    b.SetX(5.0, {b});
  }

  /** The same moves with `RemoveChild`, which clears the links, give a well-linked list. */
  method ClearedLinkWitness() returns (q: Sprite, b: Sprite)
    ensures q.children == [b] && b.last == null && LinksOk(q.children)
  {
    var p := new Sprite(0.0, 0.0, 10.0, 10.0, false);
    var a := new Sprite(0.0, 0.0, 1.0, 1.0, false);
    b := new Sprite(0.0, 0.0, 1.0, 1.0, false);
    var _ := p.AddChild(a, {});
    var _ := p.AddChild(b, {});
    p.RemoveChild(b);
    q := new Sprite(0.0, 0.0, 10.0, 10.0, false);
    var _ := q.AddChild(b, {});
  }

  /** Appending a sprite the list did not hold and then removing it gives the list back. */
  lemma AddRemoveRestores(cs: seq<Sprite>, c: Sprite)
    requires c !in cs
    ensures Without(cs + [c], c) == cs
  {
    WithoutAppend(cs, [c], c);
    WithoutAbsent(cs, c);
    assert Without([c], c) == [] + Without([], c);
  }

  /** The display-list shape `setX` needs implies the one `dispose` needs. */
  lemma TreeIsHosted(scene: set<Sprite>)
    requires Tree(scene)
    ensures Hosted(scene)
  {
  }

  /** `cs` with every occurrence of `c` taken out, order kept. */
  ghost function Without(cs: seq<Sprite>, c: Sprite): seq<Sprite>
  {
    if cs == [] then [] else (if cs[0] == c then [] else [cs[0]]) + Without(cs[1..], c)
  }

  /** Past the copy of `c` at `j`, what `Without` keeps comes from beyond `j`. */
  lemma {:induction false} WithoutFrom(cs: seq<Sprite>, c: Sprite, j: int)
    requires 0 <= j < |cs| && cs[j] == c
    ensures forall k :: j <= k < |Without(cs, c)| ==> Without(cs, c)[k] in cs[j + 1..]
  {
    if j == 0 {
      WithoutElements(cs[1..], c);
    } else {
      WithoutFrom(cs[1..], c, j - 1);
      assert cs[1..][j..] == cs[j + 1..];
    }
  }

  /**
   * One turn of `disposeInternal` that took `c`, at `j`, out of the list: the
   * sprites from `j` on were beyond `j` before, and `c` is the only one gone.
   */
  lemma WithoutTurn(cs: seq<Sprite>, c: Sprite, j: int)
    requires 0 <= j < |cs| && cs[j] == c
    ensures forall k :: j <= k < |Without(cs, c)| ==> Without(cs, c)[k] in cs[j + 1..] && Without(cs, c)[k] != c
    ensures forall d :: d in cs && d !in Without(cs, c) ==> d == c
    ensures forall d :: d in Without(cs, c) ==> d in cs && d != c
  {
    WithoutFrom(cs, c, j);
    WithoutElements(cs, c);
    WithoutMultiset(cs, c);
    forall d | d in cs && d != c
      ensures d in Without(cs, c)
    {
      assert d in multiset(Without(cs, c));
    }
  }

  /** `Without` drops exactly the copies of `c`: every other sprite keeps its multiplicity. */
  lemma {:induction false} WithoutMultiset(cs: seq<Sprite>, c: Sprite)
    ensures multiset(Without(cs, c)) == multiset(cs)[c := 0]
  {
    if cs != [] {
      assert cs == [cs[0]] + cs[1..];
      WithoutMultiset(cs[1..], c);
    }
  }

  lemma WithoutElements(cs: seq<Sprite>, c: Sprite)
    ensures forall k :: 0 <= k < |Without(cs, c)| ==> Without(cs, c)[k] in cs && Without(cs, c)[k] != c
    ensures c !in Without(cs, c)
  {
    var r := Without(cs, c);
    WithoutMultiset(cs, c);
    forall k | 0 <= k < |r|
      ensures r[k] in cs && r[k] != c
    {
      assert r[k] in multiset(r);
    }
  }

  lemma {:induction false} WithoutDistinct(cs: seq<Sprite>, c: Sprite)
    requires Distinct(cs)
    ensures Distinct(Without(cs, c))
  {
    if cs != [] {
      WithoutDistinct(cs[1..], c);
      WithoutMultiset(cs[1..], c);
      var r := Without(cs[1..], c);
      forall i | 0 <= i < |r|
        ensures r[i] in cs[1..]
      {
        assert r[i] in multiset(r);
      }
    }
  }

  /** Taking out a sprite the list does not hold changes nothing. */
  lemma {:induction false} WithoutAbsent(cs: seq<Sprite>, c: Sprite)
    requires c !in cs
    ensures Without(cs, c) == cs
  {
    if cs != [] {
      WithoutAbsent(cs[1..], c);
    }
  }

  lemma {:induction false} WithoutAppend(cs: seq<Sprite>, ds: seq<Sprite>, c: Sprite)
    ensures Without(cs + ds, c) == Without(cs, c) + Without(ds, c)
  {
    if cs == [] {
      assert cs + ds == ds;
    } else {
      assert (cs + ds)[1..] == cs[1..] + ds;
      WithoutAppend(cs[1..], ds, c);
    }
  }

  /** `collidesWith` is symmetric. */
  lemma CollidesWithSymmetric(a: Sprite, b: Sprite)
    ensures a.CollidesWith(b) == b.CollidesWith(a)
  {
    if a != b {
      StrictOverlapIsOpenIntervals(a.Bounds(), b.Bounds());
    }
  }

  // ---------------------------------------------------------------------------
  // Display-list shape
  //
  // The sprites of the three generations are different classes with no common
  // type, so each module states these shape predicates over its own `Sprite`.
  // Here a sprite's parent is a `Sprite?` and there is no stage, so `Tree` and the reach sets
  // follow sprite children only.

  /** The sibling links of `cs` follow its array order. */
  ghost predicate LinksOk(cs: seq<Sprite>)
    reads cs`last, cs`next
  {
    (forall i {:trigger cs[i].last} :: 0 <= i < |cs| ==> cs[i].last == (if i == 0 then null else cs[i - 1])) &&
    (forall i {:trigger cs[i].next} :: 0 <= i < |cs| ==> cs[i].next == (if i == |cs| - 1 then null else cs[i + 1]))
  }

  lemma NextLink(cs: seq<Sprite>, i: nat)
    requires LinksOk(cs) && i < |cs|
    ensures cs[i].next == if i + 1 < |cs| then cs[i + 1] else null
  {
  }

  /** A list whose links are right up to its end stays right when `c` is linked behind it. */
  lemma AppendLinks(cs: seq<Sprite>, c: Sprite)
    requires forall i {:trigger cs[i].last} :: 0 <= i < |cs| ==> cs[i].last == (if i == 0 then null else cs[i - 1])
    requires forall i {:trigger cs[i].next} :: 0 <= i < |cs| - 1 ==> cs[i].next == cs[i + 1]
    requires cs != [] ==> cs[|cs| - 1].next == c && c.last == cs[|cs| - 1]
    requires cs == [] ==> c.last == null
    requires c.next == null
    ensures LinksOk(cs + [c])
  {
    var ds := cs + [c];
    forall i | 0 <= i < |ds|
      ensures ds[i].last == (if i == 0 then null else ds[i - 1])
      ensures ds[i].next == (if i == |ds| - 1 then null else ds[i + 1])
    {
      assert 0 < i ==> ds[i - 1] == cs[i - 1];
      if i < |cs| {
        assert ds[i] == cs[i] && ds[i + 1] == if i + 1 < |cs| then cs[i + 1] else c;
        assert cs[i].last == (if i == 0 then null else cs[i - 1]);
      } else {
        assert ds[i] == c;
      }
    }
    assert LinksOk(ds);
  }

  lemma LastLink(cs: seq<Sprite>, i: nat)
    requires LinksOk(cs) && i < |cs|
    ensures cs[i].last == if i > 0 then cs[i - 1] else null
  {
  }

  ghost predicate Distinct(cs: seq<Sprite>) {
    forall i, j :: 0 <= i < j < |cs| ==> cs[i] != cs[j]
  }

  ghost predicate Closed(scene: set<Sprite>)
    reads scene`children
  {
    forall s, i :: s in scene && 0 <= i < |s.children| ==> s.children[i] in scene
  }

  /**
   * Every sprite of `scene` lists its children once each, is their parent, and
   * has links matching its array. A detached sprite's own links are not
   * constrained: the library's `removeChild` leaves them stale, and only
   * `addChild` ever reads them.
   */
  ghost predicate Tree(scene: set<Sprite>)
    reads scene`children, scene`parent, scene`last, scene`next
  {
    Closed(scene) &&
    (forall s, i :: s in scene && 0 <= i < |s.children| ==> s.children[i].parent == s) &&
    (forall s :: s in scene ==> Distinct(s.children) && LinksOk(s.children))
  }

  /** A `Tree` whose detached sprites have no sibling links, as `addChild` needs. */
  ghost predicate LinkedTree(scene: set<Sprite>)
    reads scene`children, scene`parent, scene`last, scene`next
  {
    Tree(scene) && forall s :: s in scene && s.parent == null ==> s.last == null && s.next == null
  }

  /** Every child of `p` has `p` as its parent. */
  ghost predicate ParentOf(p: Sprite)
    reads p`children, p.children`parent
  {
    forall i :: 0 <= i < |p.children| ==> p.children[i].parent == p
  }

  /** `scene` is closed under `children` and every listed sprite knows its parent. */
  ghost predicate Hosted(scene: set<Sprite>)
    reads scene`children, scene`parent
  {
    Closed(scene) && forall s, i :: s in scene && 0 <= i < |s.children| ==> s.children[i].parent == s
  }

  /** What `dispose` needs: `x` heads a hosted scene, from outside which its parent lists it. */
  ghost predicate DisposeScene(x: Sprite, scene: set<Sprite>)
    reads scene`children, scene`parent, x`parent, if x.parent == null then {} else {x.parent}
    reads if x.parent == null then {} else set c | c in x.parent.children
  {
    x in scene && Hosted(scene) && (x.parent != null ==> x.parent !in scene && ParentOf(x.parent))
  }

  /** In a hosted scene, a sprite without a parent in the scene is listed by no member of it. */
  lemma NobodyListsDetached(x: Sprite, scene: set<Sprite>)
    requires Hosted(scene) && x in scene && (x.parent == null || x.parent !in scene)
    ensures Root(x, scene)
  {
  }

  /** A detached head leaves the rest of a hosted scene hosted, and its children are heads there. */
  lemma HostedWithout(x: Sprite, scene: set<Sprite>)
    requires Hosted(scene) && x in scene && x.parent == null
    ensures Hosted(scene - {x})
    ensures forall i :: 0 <= i < |x.children| ==> DisposeScene(x.children[i], scene - {x})
  {
    NobodyListsDetached(x, scene);
  }

  /** No sprite of `scene` lists `x` as a child. */
  ghost predicate Root(x: Sprite, scene: set<Sprite>)
    reads scene`children
  {
    forall s, i :: s in scene && 0 <= i < |s.children| ==> s.children[i] != x
  }

  /** Whether the walk follows child `c`: always, or only when it is not being dragged. */
  ghost predicate Follows(c: Sprite, stillOnly: bool)
    reads c`isDragging
  {
    !stillOnly || !c.isDragging
  }

  /** `x` and the descendants reached through followed children. */
  ghost function Reach(x: Sprite, scene: set<Sprite>, stillOnly: bool): set<Sprite>
    requires x in scene
    reads scene`children, scene`isDragging
    decreases scene, 0
  {
    {x} + ReachPrefix(x.children, |x.children|, scene - {x}, stillOnly)
  }

  /** What `Reach` gathers from the first `n` children in `cs`. */
  ghost function ReachPrefix(cs: seq<Sprite>, n: nat, scene: set<Sprite>, stillOnly: bool): set<Sprite>
    requires n <= |cs|
    reads scene`children, scene`isDragging
    decreases scene, n + 1
  {
    if n == 0 then {}
    else ReachPrefix(cs, n - 1, scene, stillOnly) +
         (if cs[n - 1] in scene && Follows(cs[n - 1], stillOnly) then Reach(cs[n - 1], scene, stillOnly) else {})
  }

  /** The sprites `setX`/`setY` of `x` move: `x` and its non-dragging descendants
      reached through non-dragging children. */
  ghost function Moved(x: Sprite, scene: set<Sprite>): set<Sprite>
    requires x in scene
    reads scene`children, scene`isDragging
  {
    Reach(x, scene, true)
  }

  lemma {:induction false} ReachInScene(x: Sprite, scene: set<Sprite>, stillOnly: bool)
    requires x in scene
    ensures x in Reach(x, scene, stillOnly) && Reach(x, scene, stillOnly) <= scene
    decreases scene, 0
  {
    PrefixInScene(x.children, |x.children|, scene - {x}, stillOnly);
  }

  lemma {:induction false} PrefixInScene(cs: seq<Sprite>, n: nat, scene: set<Sprite>, stillOnly: bool)
    requires n <= |cs|
    ensures ReachPrefix(cs, n, scene, stillOnly) <= scene
    decreases scene, n + 1
  {
    if n > 0 {
      PrefixInScene(cs, n - 1, scene, stillOnly);
      if cs[n - 1] in scene && Follows(cs[n - 1], stillOnly) {
        ReachInScene(cs[n - 1], scene, stillOnly);
      }
    }
  }

  /** Every sprite gathered from a prefix comes from one followed child of it. */
  lemma {:induction false} PrefixMember(cs: seq<Sprite>, n: nat, scene: set<Sprite>, stillOnly: bool, y: Sprite)
    requires n <= |cs| && y in ReachPrefix(cs, n, scene, stillOnly)
    ensures exists k :: 0 <= k < n && cs[k] in scene && Follows(cs[k], stillOnly) &&
                        y in Reach(cs[k], scene, stillOnly)
  {
    if y !in ReachPrefix(cs, n - 1, scene, stillOnly) {
      assert cs[n - 1] in scene && Follows(cs[n - 1], stillOnly) && y in Reach(cs[n - 1], scene, stillOnly);
    } else {
      PrefixMember(cs, n - 1, scene, stillOnly, y);
    }
  }

  lemma {:induction false} PrefixHas(cs: seq<Sprite>, n: nat, scene: set<Sprite>, stillOnly: bool, k: nat)
    requires k < n <= |cs| && cs[k] in scene && Follows(cs[k], stillOnly)
    ensures Reach(cs[k], scene, stillOnly) <= ReachPrefix(cs, n, scene, stillOnly)
  {
    if k < n - 1 {
      PrefixHas(cs, n - 1, scene, stillOnly, k);
    }
  }

  /** In a tree, the parent of a reached sprite (other than the start) is reached too. */
  lemma {:induction false} ReachParent(x: Sprite, part: set<Sprite>, scene: set<Sprite>, stillOnly: bool, y: Sprite)
    requires Tree(scene) && part <= scene && x in part
    requires y in Reach(x, part, stillOnly) && y != x
    ensures y.parent != null && y.parent in Reach(x, part, stillOnly) && Follows(y, stillOnly)
    decreases part
  {
    var rest := part - {x};
    PrefixMember(x.children, |x.children|, rest, stillOnly, y);
    var k :| 0 <= k < |x.children| && x.children[k] in rest && Follows(x.children[k], stillOnly) &&
             y in Reach(x.children[k], rest, stillOnly);
    var c := x.children[k];
    PrefixHas(x.children, |x.children|, rest, stillOnly, k);
    if y != c {
      ReachParent(c, rest, scene, stillOnly, y);
    }
  }

  /** A reach stays inside any set that contains its start and is closed under followed children. */
  lemma {:induction false} ReachWithin(x: Sprite, part: set<Sprite>, stillOnly: bool, c: set<Sprite>)
    requires x in part && x in c
    requires forall s, i ::
               s in c && 0 <= i < |s.children| && s.children[i] in part && Follows(s.children[i], stillOnly)
               ==> s.children[i] in c
    ensures Reach(x, part, stillOnly) <= c
    decreases part
  {
    var rest := part - {x};
    forall y | y in ReachPrefix(x.children, |x.children|, rest, stillOnly)
      ensures y in c
    {
      PrefixMember(x.children, |x.children|, rest, stillOnly, y);
      var k :| 0 <= k < |x.children| && x.children[k] in rest && Follows(x.children[k], stillOnly) &&
               y in Reach(x.children[k], rest, stillOnly);
      ReachWithin(x.children[k], rest, stillOnly, c);
    }
  }

  /**
   * The display list of a root, split child by child: `before[k]` is what the
   * first `k` children move, `steps[k]` what child `k` moves, and each step is
   * apart from what came before it.
   */
  lemma MovedPieces(x: Sprite, scene: set<Sprite>) returns (before: seq<set<Sprite>>, steps: seq<set<Sprite>>)
    requires Tree(scene) && x in scene && Root(x, scene)
    ensures |before| == |x.children| + 1 && |steps| == |x.children|
    ensures before[0] == {}
    ensures forall k :: 0 <= k < |steps| ==>
              before[k + 1] == before[k] + steps[k] && steps[k] !! before[k] && steps[k] <= scene - {x}
    ensures forall k :: 0 <= k < |steps| ==>
              steps[k] == if x.children[k].isDragging then {} else Moved(x.children[k], scene - {x})
    ensures Moved(x, scene) == {x} + before[|steps|]
  {
    var rest := scene - {x};
    TreeWithoutRoot(x, scene);
    var cs, n := x.children, |x.children|;
    before := seq(n + 1, k reads rest`children, rest`isDragging requires 0 <= k <= n =>
                ReachPrefix(cs, k, rest, true));
    steps := seq(n, k reads rest`children, rest`isDragging requires 0 <= k < n && cs[k] in rest =>
                if cs[k].isDragging then {} else Moved(cs[k], rest));
    forall k | 0 <= k < n
      ensures steps[k] !! before[k] && steps[k] <= rest
    {
      ReachInScene(x.children[k], rest, true);
      PrefixDisjoint(x, scene, true, k, k);
    }
  }

  /** Child `i` of a root and the sprites below the root, for `ChildrenKept`. */
  datatype Place = Place(rest: set<Sprite>, i: nat)

  /**
   * One `addChild` step: `c` appended to `p`, whose list was `before`, within
   * `scene`. The twostate lemmas below take the step as a single value.
   */
  datatype Append = Append(p: Sprite, c: Sprite, scene: set<Sprite>, before: seq<Sprite>)

  /** What an `addChild` step changes, between the state before it and now. */
  twostate predicate AppendStep(a: Append)
    reads a.scene
  {
    var Append(p, c, scene, before) := a;
    old(LinkedTree(scene)) && p in scene && c in scene && c != p && old(c.parent) == null &&
    old(p.children) == before && p.children == before + [c] && c.parent == p &&
    (forall s :: s in scene && s != p ==> s.children == old(s.children)) &&
    (forall s :: s in scene && s != c ==> s.parent == old(s.parent) && s.last == old(s.last)) &&
    (forall s :: s in scene && s != c && (before == [] || s != before[|before| - 1]) ==> s.next == old(s.next)) &&
    (before != [] ==> c.last == before[|before| - 1] && c.next == null && before[|before| - 1].next == c) &&
    (before == [] ==> c.last == old(c.last) && c.next == old(c.next))
  }

  /** Appending a detached sprite of the scene to a list keeps the scene a tree. */
  twostate lemma AddKeepsTree(a: Append)
    requires old(LinkedTree(a.scene)) && a.p in a.scene && a.c in a.scene && a.c != a.p && old(a.c.parent) == null
    requires old(a.p.children) == a.before && a.p.children == a.before + [a.c] && a.c.parent == a.p
    requires forall s :: s in a.scene && s != a.p ==> s.children == old(s.children)
    requires forall s :: s in a.scene && s != a.c ==> s.parent == old(s.parent) && s.last == old(s.last)
    requires forall s :: s in a.scene && s != a.c && (a.before == [] || s != a.before[|a.before| - 1]) ==> s.next == old(s.next)
    requires a.before != [] ==> a.c.last == a.before[|a.before| - 1] && a.c.next == null && a.before[|a.before| - 1].next == a.c
    requires a.before == [] ==> a.c.last == old(a.c.last) && a.c.next == old(a.c.next)
    ensures LinkedTree(a.scene)
  {
    assert AppendStep(a);
    AddKeepsShape(a);
    AddKeepsOwnLinks(a);
    AddKeepsOtherLinks(a);
  }

  twostate lemma AddKeepsShape(a: Append)
    requires AppendStep(a)
    ensures Closed(a.scene)
    ensures forall s, i :: s in a.scene && 0 <= i < |s.children| ==> s.children[i].parent == s
    ensures forall s :: s in a.scene && s.parent == null ==> s.last == null && s.next == null
  {
    var Append(p, c, scene, before) := a;
    assert forall i :: 0 <= i < |before| ==> before[i] == old(p.children[i]);
    forall s, i | s in scene && 0 <= i < |s.children|
      ensures s.children[i].parent == s
    {
      if s == p && i == |before| {
        assert s.children[i] == c;
      } else {
        assert s.children[i] == old(s.children[i]) && old(s.children[i].parent) == s;
      }
    }
  }

  /** The list that grew: `c` was in no list, so it is new to this one, linked at its end. */
  twostate lemma AddKeepsOwnLinks(a: Append)
    requires AppendStep(a)
    ensures Distinct(a.p.children) && LinksOk(a.p.children)
  {
    var Append(p, c, scene, before) := a;
    AddNotListed(a);
    AddKeepsLast(a);
    AddKeepsNext(a);
    assert before == [] ==> old(c.last == null && c.next == null);
    AppendLinks(before, c);
  }

  /** A detached sprite is in no list, in particular not in the one it joins. */
  twostate lemma AddNotListed(a: Append)
    requires AppendStep(a)
    ensures forall i :: 0 <= i < |a.before| ==> a.before[i] != a.c
    ensures Distinct(a.before + [a.c])
  {
    var Append(p, c, scene, before) := a;
    assert forall i :: 0 <= i < |before| ==> old(before[i].parent) == p;
    assert old(Distinct(p.children));
  }

  twostate lemma AddKeepsLast(a: Append)
    requires AppendStep(a)
    ensures forall i {:trigger a.before[i].last} :: 0 <= i < |a.before| ==>
              a.before[i].last == (if i == 0 then null else a.before[i - 1])
  {
    var Append(p, c, scene, before) := a;
    AddNotListed(a);
    assert old(LinksOk(p.children));
  }

  twostate lemma AddKeepsNext(a: Append)
    requires AppendStep(a)
    ensures forall i {:trigger a.before[i].next} :: 0 <= i < |a.before| - 1 ==> a.before[i].next == a.before[i + 1]
  {
    var Append(p, c, scene, before) := a;
    AddNotListed(a);
    assert old(LinksOk(p.children) && Distinct(p.children));
    assert forall i :: 0 <= i < |before| - 1 ==> before[i] != before[|before| - 1];
  }

  twostate lemma AddKeepsOtherLinks(a: Append)
    requires AppendStep(a)
    ensures forall s :: s in a.scene && s != a.p ==> LinksOk(s.children)
  {
    var Append(p, c, scene, before) := a;
    assert forall s, i :: s in scene && 0 <= i < |old(s.children)| ==> old(s.children[i]) != c;
    assert before != [] ==> forall s, i :: s in scene && s != p && 0 <= i < |old(s.children)| ==>
      old(s.children[i]) != before[|before| - 1];
    forall s | s in scene && s != p
      ensures LinksOk(s.children)
    {
      assert forall k :: 0 <= k < |s.children| ==>
        s.children[k].last == old(s.children[k].last) && s.children[k].next == old(s.children[k].next);
    }
  }

  /** Removing a root keeps the rest of a tree a tree, with each child of the root a root. */
  lemma TreeWithoutRoot(p: Sprite, scene: set<Sprite>)
    requires Tree(scene) && p in scene && Root(p, scene)
    ensures Tree(scene - {p})
    ensures forall i :: 0 <= i < |p.children| ==> p.children[i] in scene - {p} && Root(p.children[i], scene - {p})
  {
  }

  /** The reaches of two distinct children of a root do not meet. */
  lemma SiblingsDisjoint(p: Sprite, scene: set<Sprite>, stillOnly: bool, i: nat, j: nat)
    requires Tree(scene) && p in scene && Root(p, scene)
    requires i < |p.children| && j < |p.children| && i != j
    ensures Reach(p.children[i], scene - {p}, stillOnly) !! Reach(p.children[j], scene - {p}, stillOnly)
  {
    var rest := scene - {p};
    TreeWithoutRoot(p, scene);
    var ci, cj := p.children[i], p.children[j];
    var a := Reach(ci, rest, stillOnly);
    ReachInScene(ci, rest, stillOnly);
    var outside := rest - a;
    forall s, k | s in outside && 0 <= k < |s.children| && s.children[k] in rest && Follows(s.children[k], stillOnly)
      ensures s.children[k] in outside
    {
      var d := s.children[k];
      if d in a && d != ci {
        ReachParent(ci, rest, scene, stillOnly, d);
      }
    }
    if cj in a {
      ReachParent(ci, rest, scene, stillOnly, cj);
    }
    ReachWithin(cj, rest, stillOnly, outside);
  }

  /** The reach of child `i` of a root misses what its earlier siblings reach. */
  lemma {:induction false} PrefixDisjoint(p: Sprite, scene: set<Sprite>, stillOnly: bool, i: nat, n: nat)
    requires Tree(scene) && p in scene && Root(p, scene)
    requires n <= i < |p.children|
    ensures Reach(p.children[i], scene - {p}, stillOnly) !! ReachPrefix(p.children, n, scene - {p}, stillOnly)
  {
    if n > 0 {
      PrefixDisjoint(p, scene, stillOnly, i, n - 1);
      if p.children[n - 1] in scene - {p} && Follows(p.children[n - 1], stillOnly) {
        SiblingsDisjoint(p, scene, stillOnly, i, n - 1);
      }
    }
  }
}
