/**
 * The legacy stage of src/zgor/ZCanvas.js: a display list of sprites
 * chained by `last`/`next` links, drawn first to last and offered events
 * first to last.
 *
 * Its children are `zgor.ZSprite` objects, which are not part of this
 * model. A child here holds only what the stage itself writes (its links,
 * its `stage`, the parent last handed to `setParent`); the stage's calls to
 * a child's `dispose` are recorded in call order in `disposals`, and what a
 * child's `handleInteraction` answers is the input `handles`. The platform
 * is recorded too: `frames` holds the draw passes (the sprites drawn, in
 * order), `timers` the `setTimeout` requests for the next tick and `delays`
 * the zero-delay renders asked of `FrameDelay`.
 */
module LegacyStage {
  import opened Wrappers
  import opened Events

  class Sprite {
    var last: Sprite?
    var next: Sprite?
    var stage: Stage?
    /** The stage last handed to `setParent`. */
    var parent: Stage?

    constructor ()
      ensures last == null && next == null && stage == null && parent == null
    {
      last, next, stage, parent := null, null, null, null;
    }
  }

  class Stage {
    var width: real
    var height: real
    var animate: bool
    var disposed: bool
    /** `_renderInterval`: milliseconds between ticks. */
    var renderInterval: real
    var children: seq<Sprite>
    var frames: seq<seq<Sprite>>
    var timers: nat
    var delays: nat
    var disposals: seq<Sprite>

    /** A display list without repeats whose links follow its order. */
    ghost predicate Valid()
      reads this, children
    {
      Distinct(children) && LinksOk(children)
    }

    /**
     * The constructor: the interval from the frame rate (60 when falsy),
     * `setDimensions` (which asks for a delayed update), and on an animated
     * stage a first render that starts the tick loop.
     */
    constructor (w: real, h: real, animateable: bool, frameRate: real)
      ensures width == w && height == h && animate == animateable && !disposed
      ensures renderInterval == 1000.0 / (if frameRate == 0.0 then 60.0 else frameRate)
      ensures children == [] && disposals == [] && Valid()
      ensures delays == (if animateable then 0 else 1)
      ensures frames == (if animateable then [[]] else []) && timers == (if animateable then 1 else 0)
    {
      renderInterval := 1000.0 / (if frameRate == 0.0 then 60.0 else frameRate);
      children := [];
      animate := animateable;
      disposed := false;
      frames, timers, delays, disposals := [], 0, 0, [];
      width, height := 0.0, 0.0;
      new;
      SetDimensions(w, h);
      if animate {
        Render();
      }
    }

    /**
     * `addChild(c)`: links `c` behind the current last child (an empty list
     * links nothing), hands it this stage as parent and stage, appends it,
     * and redraws when not animating. The draw walk follows `next` from the
     * first child, so `c` must not be listed already and, for an empty
     * list, must carry no links.
     */
    method AddChild(c: Sprite) returns (r: Stage)
      requires Valid() && c !in children
      requires children == [] ==> c.last == null && c.next == null
      modifies this`children, this`frames, this`timers, c`last, c`next, c`stage, c`parent
      modifies (if children == [] then {} else {children[|children| - 1]})`next
      ensures r == this && children == old(children) + [c] && Valid()
      ensures c.stage == this && c.parent == this
      ensures old(children) != [] ==> c.last == old(children[|children| - 1]) && c.next == null
      ensures frames == old(frames) + (if animate then [] else [children]) && timers == old(timers)
    {
      var n := |children|;
      if n > 0 {
        var prev := children[n - 1];
        c.last := prev;
        prev.next := c;
        c.next := null;
      }
      c.parent := this;
      c.stage := this;
      AppendLinks(old(children), c);
      children := children + [c];
      if !animate {
        Render();
      }
      r := this;
    }

    /**
     * `removeChild(c)`: disposes `c`, splices out its last occurrence (the
     * scan runs from the end), clears its parent and stage, rebuilds the
     * links of the remaining children and redraws when not animating. The
     * links of `c` itself are left as they were.
     */
    method RemoveChild(c: Sprite)
      requires Distinct(children)
      modifies this`children, this`disposals, this`frames, this`timers, c`parent, c`stage, children`last, children`next
      ensures disposals == old(disposals) + [c]
      ensures children == WithoutLast(old(children), c) && Valid()
      ensures c !in children && forall s :: s in children <==> s in old(children) && s != c
      ensures c.parent == null && c.stage == null
      ensures frames == old(frames) + (if animate then [] else [children]) && timers == old(timers)
    {
      disposals := disposals + [c];
      Splice(c);
      WithoutLastMembers(old(children), c);
      c.parent := null;
      c.stage := null;
      assert forall k :: 0 <= k < |children| ==> children[k] in old(children);
      Relink();
      if !animate {
        Render();
      }
    }

    /** The search of `removeChild`: from the end, the first match is spliced out. */
    method Splice(c: Sprite)
      modifies this`children
      ensures children == WithoutLast(old(children), c)
    {
      var i := |children|;
      while i > 0
        invariant 0 <= i <= |children| && children == old(children)
        invariant forall j :: i <= j < |children| ==> children[j] != c
      {
        i := i - 1;
        if children[i] == c {
          WithoutLastAt(children, c, i);
          children := children[..i] + children[i + 1..];
          return;
        }
      }
      WithoutLastAbsent(children, c);
    }

    /**
     * The link rebuild of `removeChild`: every child is linked to its
     * neighbours, the first has no `last` and the final one no `next`.
     */
    method Relink()
      requires Distinct(children)
      modifies children`last, children`next
      ensures LinksOk(children)
    {
      var l := |children|;
      var i := 0;
      while i < l
        invariant 0 <= i <= l
        invariant forall j {:trigger children[j].last} :: 0 <= j < i ==> children[j].last == (if j == 0 then null else children[j - 1])
        invariant forall j {:trigger children[j].next} :: 0 <= j < i - 1 ==> children[j].next == children[j + 1]
        invariant i == l && l > 0 ==> children[l - 1].next == null
      {
        var s := children[i];
        if i > 0 {
          var prev := children[i - 1];
          s.last := prev;
          prev.next := s;
        } else {
          s.last := null;
        }
        if i == l - 1 {
          s.next := null;
        }
        i := i + 1;
      }
    }

    /** `getChildAt(index)`: the child there, `undefined` (`None`) past the list. */
    function GetChildAt(index: int): (r: Option<Sprite>)
      reads this
      ensures r.Some? <==> 0 <= index < |children|
      ensures r.Some? ==> r.value == children[index]
    {
      if 0 <= index < |children| then Some(children[index]) else None
    }

    /**
     * `removeChildAt(index)`: `removeChild(getChildAt(index))`. Past the list
     * that is `removeChild(undefined)`, whose first call on its argument
     * throws before anything changes.
     */
    method RemoveChildAt(index: int) returns (threw: bool)
      requires Distinct(children)
      modifies this`children, this`disposals, this`frames, this`timers, children`parent, children`stage, children`last, children`next
      ensures threw <==> !(0 <= index < |old(children)|)
      ensures threw ==> children == old(children) && disposals == old(disposals) && frames == old(frames)
      ensures !threw ==>
                var c := old(children[index]);
                children == WithoutLast(old(children), c) && Valid() &&
                disposals == old(disposals) + [c] && c.parent == null && c.stage == null
    {
      var found := GetChildAt(index);
      if found.None? {
        return true;
      }
      RemoveChild(found.value);
      threw := false;
    }

    /** `contains(c)`: a search from the end of the list. */
    method Contains(c: Sprite) returns (found: bool)
      ensures found <==> c in children
    {
      var i := |children|;
      while i > 0
        invariant 0 <= i <= |children|
        invariant forall j :: i <= j < |children| ==> children[j] != c
      {
        i := i - 1;
        if children[i] == c {
          return true;
        }
      }
      return false;
    }

    /**
     * `update(delayed)`: nothing on an animated stage, whose next tick
     * redraws anyway; otherwise a zero-delay render when `delayed`, or a
     * render now.
     */
    method Update(delayed: bool)
      requires LinksOk(children)
      modifies this`frames, this`timers, this`delays
      ensures animate ==> frames == old(frames) && timers == old(timers) && delays == old(delays)
      ensures !animate && delayed ==> delays == old(delays) + 1 && frames == old(frames) && timers == old(timers)
      ensures !animate && !delayed ==> frames == old(frames) + [children] && timers == old(timers) && delays == old(delays)
    {
      if !animate {
        if delayed {
          delays := delays + 1;
        } else {
          Render();
        }
      }
    }

    /** `setDimensions(w, h)`: records the size, then a delayed update. */
    method SetDimensions(w: real, h: real)
      requires LinksOk(children)
      modifies this`width, this`height, this`frames, this`timers, this`delays
      ensures width == w && height == h && frames == old(frames) && timers == old(timers)
      ensures delays == old(delays) + (if animate then 0 else 1)
    {
      width, height := w, h;
      Update(true);
    }

    /**
     * `render`: requests the next tick when the stage is animated and not
     * disposed, then draws the children from the first along the `next`
     * links.
     */
    method Render()
      requires LinksOk(children)
      modifies this`frames, this`timers
      ensures timers == old(timers) + (if !disposed && animate then 1 else 0)
      ensures frames == old(frames) + [children]
    {
      if !disposed && animate {
        timers := timers + 1;
      }
      var drawn: seq<Sprite> := [];
      var n := |children|;
      if n > 0 {
        var s: Sprite? := children[0];
        var i := 0;
        while s != null
          invariant 0 <= i <= n && drawn == children[..i]
          invariant s == (if i < n then children[i] else null)
          decreases n - i
        {
          drawn := drawn + [s];
          s := s.next;
          i := i + 1;
        }
      }
      assert drawn == children;
      frames := frames + [drawn];
    }

    /**
     * `handleInteraction`: offers the event to the children from the first
     * along the `next` links. A mouse event stops at the first child that
     * reports it handled; a touch event reaches every child. A stage that
     * is not animated then redraws. `offered` lists the children reached.
     */
    method HandleInteraction(ev: EventType, handles: Sprite -> bool) returns (offered: seq<Sprite>)
      requires LinksOk(children)
      modifies this`frames, this`timers
      ensures |offered| <= |children| && offered == children[..|offered|]
      ensures !IsMouse(ev) ==> offered == children
      ensures IsMouse(ev) ==> forall j :: 0 <= j < |offered| - 1 ==> !handles(offered[j])
      ensures IsMouse(ev) && |offered| < |children| ==> offered != [] && handles(offered[|offered| - 1])
      ensures frames == old(frames) + (if animate then [] else [children]) && timers == old(timers)
    {
      offered := [];
      var n := |children|;
      if n > 0 {
        var s: Sprite? := children[0];
        var i := 0;
        while s != null
          invariant 0 <= i <= n && offered == children[..i]
          invariant s == (if i < n then children[i] else null)
          invariant IsMouse(ev) ==> forall j :: 0 <= j < i ==> !handles(children[j])
          decreases n - i
        {
          offered := offered + [s];
          if IsMouse(ev) && handles(s) {
            break;
          }
          s := s.next;
          i := i + 1;
        }
      }
      if !animate {
        Render();
      }
    }

    /**
     * `disposeInternal`: disposes every child from the last to the first and
     * empties the list.
     */
    method DisposeInternal()
      modifies this`children, this`disposals
      ensures disposals == old(disposals) + Reversed(old(children))
      ensures children == [] && Valid()
    {
      var i := |children|;
      while i > 0
        invariant 0 <= i <= |children| && children == old(children)
        invariant disposals == old(disposals) + Reversed(children[i..])
      {
        i := i - 1;
        ReversedFront(children, i);
        disposals := disposals + [children[i]];
      }
      assert children[0..] == children;
      children := [];
    }
  }

  // The shape predicates of `Scene` and `ZSprite`, over this module's own `Sprite`
  // class: the legacy stage rebuilds every link, so only these two are needed.
  ghost predicate Distinct(cs: seq<Sprite>) {
    forall i, j :: 0 <= i < j < |cs| ==> cs[i] != cs[j]
  }

  /** Every child's `last` is its predecessor and its `next` its successor. */
  ghost predicate LinksOk(cs: seq<Sprite>)
    reads cs
  {
    (forall i {:trigger cs[i].last} :: 0 <= i < |cs| ==> cs[i].last == (if i == 0 then null else cs[i - 1])) &&
    (forall i {:trigger cs[i].next} :: 0 <= i < |cs| ==> cs[i].next == (if i == |cs| - 1 then null else cs[i + 1]))
  }

  /** Linking `c` behind a correctly linked list gives a correctly linked list. */
  lemma AppendLinks(cs: seq<Sprite>, c: Sprite)
    requires forall i {:trigger cs[i].last} :: 0 <= i < |cs| ==> cs[i].last == (if i == 0 then null else cs[i - 1])
    requires forall i {:trigger cs[i].next} :: 0 <= i < |cs| - 1 ==> cs[i].next == cs[i + 1]
    requires cs != [] ==> cs[|cs| - 1].next == c && c.last == cs[|cs| - 1]
    requires cs == [] ==> c.last == null
    requires c.next == null
    ensures LinksOk(cs + [c])
  {
    var ds := cs + [c];
    forall i | 0 <= i < |ds|
      ensures ds[i].last == (if i == 0 then null else ds[i - 1])
    {
      if i < |cs| {
        assert ds[i] == cs[i];
      }
    }
    forall i | 0 <= i < |ds|
      ensures ds[i].next == (if i == |ds| - 1 then null else ds[i + 1])
    {
      if i < |cs| - 1 {
        assert ds[i] == cs[i] && ds[i + 1] == cs[i + 1];
      }
    }
  }

  /** The list `removeChild` leaves: `cs` without the last occurrence of `c`. */
  function WithoutLast(cs: seq<Sprite>, c: Sprite): seq<Sprite> {
    if cs == [] then []
    else if cs[|cs| - 1] == c then cs[..|cs| - 1]
    else WithoutLast(cs[..|cs| - 1], c) + [cs[|cs| - 1]]
  }

  /** With the last occurrence of `c` at `i`, it is cut out at `i`. */
  lemma {:induction false} WithoutLastAt(cs: seq<Sprite>, c: Sprite, i: nat)
    requires i < |cs| && cs[i] == c && forall j :: i < j < |cs| ==> cs[j] != c
    ensures WithoutLast(cs, c) == cs[..i] + cs[i + 1..]
    decreases |cs|
  {
    if i < |cs| - 1 {
      var front := cs[..|cs| - 1];
      WithoutLastAt(front, c, i);
      assert front[..i] == cs[..i];
      assert cs[i + 1..] == front[i + 1..] + [cs[|cs| - 1]];
    }
  }

  /** Without an occurrence nothing is cut. */
  lemma {:induction false} WithoutLastAbsent(cs: seq<Sprite>, c: Sprite)
    requires c !in cs
    ensures WithoutLast(cs, c) == cs
    decreases |cs|
  {
    if cs != [] {
      WithoutLastAbsent(cs[..|cs| - 1], c);
    }
  }

  /**
   * In a list without repeats, removing `c` removes exactly `c` and keeps
   * the list without repeats.
   */
  lemma {:induction false} WithoutLastMembers(cs: seq<Sprite>, c: Sprite)
    requires Distinct(cs)
    ensures Distinct(WithoutLast(cs, c))
    ensures forall s :: s in WithoutLast(cs, c) <==> s in cs && s != c
    decreases |cs|
  {
    if cs != [] {
      var front := cs[..|cs| - 1];
      assert forall s :: s in cs <==> s in front || s == cs[|cs| - 1];
      WithoutLastMembers(front, c);
      if cs[|cs| - 1] != c {
        var w := WithoutLast(front, c);
        forall k | 0 <= k < |w|
          ensures w[k] != cs[|cs| - 1]
        {
          assert w[k] in w;
        }
      }
    }
  }

  /** Removing the child just added gives back the list before the add. */
  lemma AddRemoveRestores(cs: seq<Sprite>, c: Sprite)
    ensures WithoutLast(cs + [c], c) == cs
  {
    assert (cs + [c])[..|cs|] == cs;
  }

  function Reversed(cs: seq<Sprite>): (r: seq<Sprite>)
    ensures |r| == |cs| && forall k :: 0 <= k < |cs| ==> r[k] == cs[|cs| - 1 - k]
  {
    if cs == [] then [] else [cs[|cs| - 1]] + Reversed(cs[..|cs| - 1])
  }

  lemma ReversedFront(cs: seq<Sprite>, i: nat)
    requires i < |cs|
    ensures Reversed(cs[i..]) == Reversed(cs[i + 1..]) + [cs[i]]
  {
    var a, b := Reversed(cs[i..]), Reversed(cs[i + 1..]) + [cs[i]];
    assert |a| == |b|;
    forall k | 0 <= k < |a|
      ensures a[k] == b[k]
    {
    }
  }
}
