/** Types shared by the single-select and the grouped options menu. */
module Common {

  /** A value that may be absent (Java's nullable reference). */
  datatype Option<+T> = None | Some(value: T)

  /** The identity of a registered `onSelect` handler; the handler itself is
      outside the model, only which one received a call is recorded. */
  type Handler = nat

  /** One invocation of an `onSelect` handler with the selected item. */
  datatype Selection<T> = Selection(handler: Handler, item: T)

  /** What a `select` passes to the handler registered at that moment:
      exactly one call when a handler is set, none otherwise. */
  function Notify<T>(onSelect: Option<Handler>, item: T): (r: seq<Selection<T>>)
    ensures |r| == (if onSelect.Some? then 1 else 0)
    ensures onSelect.Some? ==> r[0] == Selection(onSelect.value, item)
  {
    if onSelect.Some? then [Selection(onSelect.value, item)] else []
  }

  /** A request handed to the menu's collapse/expand handler. */
  datatype ToggleRequest = Expand | Collapse

  /** The three ways a menu's trigger is built (factories `text`, `icon`,
      `plain`). */
  datatype Trigger = TextTrigger | IconTrigger | PlainTrigger

  /** Only the `plain` factory builds the wrapper element that takes the
      disabled modifier; the other two leave it null. */
  predicate HasPlainWrapper(t: Trigger) {
    t == PlainTrigger
  }
}
