/**
 * The pointer-event vocabulary shared by every generation of the scene
 * graph: the DOM event types a sprite tells apart, the overridable hooks a
 * sprite runs while it is being dragged, and what a dispatch reports.
 */
module Events {

  /** The DOM event types a sprite distinguishes. */
  datatype EventType = MouseDown | MouseMove | MouseUp | TouchStart | TouchMove | TouchEnd

  predicate IsPress(t: EventType) { t == TouchStart || t == MouseDown }
  predicate IsRelease(t: EventType) { t == TouchEnd || t == MouseUp }
  predicate IsMouse(t: EventType) { t == MouseDown || t == MouseMove || t == MouseUp }

  /** The hooks `handleInteraction` invokes (overridable no-ops in the source). */
  datatype Hook = Press(x: real, y: real) | Release | Click

  /** What `handleInteraction` reports: not handled, handled with the hooks the handling sprite ran, or a thrown error. */
  datatype Outcome = Unhandled | Handled(hooks: seq<Hook>) | Threw

  /** A sprite's own step in the drag state machine. */
  datatype Action = Ignore | StartDrag | EndDrag(click: bool) | Move
}
