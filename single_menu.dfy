/** The single-select options menu (`SingleOptionsMenu<T>`): one flat list of
    item controls, at most one of which carries the check icon. */
module SingleMenu {
  import opened Common

  /** One rendered item: the button inside an `li` of the menu list. It keeps
      the item its click handler selects, the identity written into its data
      attribute when it was added, how many check icons it holds and its
      `disabled` flag. */
  datatype Control<T> = Control(item: T, id: string, checks: nat, disabled: bool)

  /** What the menu records of its collaborators: requests to the
      collapse/expand handler and calls of the `onSelect` handler, in order. */
  datatype Event<T> = Requested(request: ToggleRequest) | Fired(selection: Selection<T>)

  /** The control `add` appends for `item`: tagged with the identity known at
      that moment, no check icon, enabled. */
  function NewControl<T>(item: T, identifier: T -> string): Control<T> {
    Control(item, identifier(item), 0, false)
  }

  /** The controls that adding `items` one by one appends, in order. */
  function Render<T>(items: seq<T>, identifier: T -> string): seq<Control<T>> {
    seq(|items|, k requires 0 <= k < |items| => NewControl(items[k], identifier))
  }

  predicate AtMostOneCheck<T>(cs: seq<Control<T>>) {
    forall k :: 0 <= k < |cs| ==> cs[k].checks <= 1
  }

  /** One step of `select`'s loop on one control: a matching control gets a
      check icon appended only if it has none; any other control loses the
      icon found in it, if there is one. */
  function Retick<T>(c: Control<T>, id: string): Control<T> {
    if c.id == id then
      (if c.checks == 0 then c.(checks := 1) else c)
    else
      c.(checks := if c.checks == 0 then 0 else c.checks - 1)
  }

  /** The controls after `select` has visited each of them. */
  function Reticked<T>(cs: seq<Control<T>>, id: string): seq<Control<T>> {
    seq(|cs|, k requires 0 <= k < |cs| => Retick(cs[k], id))
  }

  /** Exclusivity of the indicator: after `select` a control carries exactly one
      check icon if its identity matches and none otherwise, provided no
      control held two icons before. */
  lemma SelectExclusive<T>(cs: seq<Control<T>>, id: string)
    requires AtMostOneCheck(cs)
    ensures |Reticked(cs, id)| == |cs|
    ensures forall k :: 0 <= k < |cs| ==>
      Reticked(cs, id)[k].checks == (if cs[k].id == id then 1 else 0)
    ensures AtMostOneCheck(Reticked(cs, id))
  {
  }

  /** `select` changes only check icons: the number of controls, their order,
      items, identities and disabled flags stay as they were. */
  lemma SelectKeepsControls<T>(cs: seq<Control<T>>, id: string)
    ensures |Reticked(cs, id)| == |cs|
    ensures forall k :: 0 <= k < |cs| ==>
      Reticked(cs, id)[k] == cs[k].(checks := Reticked(cs, id)[k].checks)
  {
  }

  /** Selecting twice in a row leaves the same icons as selecting once. */
  lemma SelectIdempotent<T>(cs: seq<Control<T>>, id: string)
    requires AtMostOneCheck(cs)
    ensures Reticked(Reticked(cs, id), id) == Reticked(cs, id)
  {
  }

  /** Control `k` is the one a document-order search for identity `id` finds. */
  predicate IsFirstMatch<T>(cs: seq<Control<T>>, id: string, k: int) {
    0 <= k < |cs| && cs[k].id == id && forall j :: 0 <= j < k ==> cs[j].id != id
  }

  /** The index of the first control tagged `id`, if any (`itemElement`'s
      `find` over the menu). */
  function FirstMatch<T>(cs: seq<Control<T>>, id: string): (r: Option<nat>)
    ensures r.Some? ==> IsFirstMatch(cs, id, r.value)
    ensures r.None? ==> forall j :: 0 <= j < |cs| ==> cs[j].id != id
  {
    if cs == [] then None
    else if cs[0].id == id then Some(0)
    else match FirstMatch(cs[1..], id)
      case None => None
      case Some(k) => Some(k + 1)
  }

  /** The controls after `disable(item)` (flag true) or `enable(item)` (flag
      false) for an item of identity `id`. */
  function WithDisabled<T>(cs: seq<Control<T>>, id: string, flag: bool): (r: seq<Control<T>>)
    ensures |r| == |cs|
    ensures forall k :: 0 <= k < |cs| ==>
      r[k] == (if IsFirstMatch(cs, id, k) then cs[k].(disabled := flag) else cs[k])
  {
    match FirstMatch(cs, id)
    case None => cs
    case Some(k) => cs[k := cs[k].(disabled := flag)]
  }

  /** A lookup that finds nothing leaves every control alone. */
  lemma DisableMissingIsNoOp<T>(cs: seq<Control<T>>, id: string, flag: bool)
    requires forall k :: 0 <= k < |cs| ==> cs[k].id != id
    ensures WithDisabled(cs, id, flag) == cs
  {
  }

  /** Round trip: `enable(item)` after `disable(item)` is the same as
      `enable(item)` alone, so the control is enabled again and nothing else
      differs; if it was enabled before, the controls are as they were. */
  lemma EnableAfterDisable<T>(cs: seq<Control<T>>, id: string)
    ensures WithDisabled(WithDisabled(cs, id, true), id, false) == WithDisabled(cs, id, false)
    ensures (forall k :: IsFirstMatch(cs, id, k) ==> !cs[k].disabled) ==>
      WithDisabled(WithDisabled(cs, id, true), id, false) == cs
  {
  }

  /** An options menu whose items are values of type `T`. */
  class SingleOptionsMenu<T> {
    /** Which factory built the trigger. */
    const trigger: Trigger
    /** `itemDisplay.identifier`: maps an item to its identity. */
    var identifier: T -> string
    /** The item controls of the menu list, in document order. */
    var controls: seq<Control<T>>
    /** `value()`: the last item passed to `select`. */
    var value: Option<T>
    /** The registered `onSelect` handler. */
    var onSelect: Option<Handler>
    var collapseOnSelect: bool
    /** `button.disabled` of the toggle button. */
    var triggerDisabled: bool
    /** Whether the plain wrapper carries the disabled modifier. */
    var plainDisabled: bool
    /** Requests to the collapse/expand handler and `onSelect` calls, in order. */
    var events: seq<Event<T>>

    ghost predicate Valid()
      reads this
    {
      AtMostOneCheck(controls) && (plainDisabled ==> HasPlainWrapper(trigger))
    }

    constructor (trigger: Trigger, identifier: T -> string)
      ensures Valid()
      ensures this.trigger == trigger && this.identifier == identifier
      ensures controls == [] && value == None && onSelect == None
      ensures !collapseOnSelect && !triggerDisabled && !plainDisabled && events == []
    {
      this.trigger := trigger;
      this.identifier := identifier;
      controls := [];
      value := None;
      onSelect := None;
      collapseOnSelect := false;
      triggerDisabled := false;
      plainDisabled := false;
      events := [];
    }

    /** `identifier(fn)`: later `add`s and `select`s use `fn`; controls already
        added keep the identity they were tagged with. */
    method SetIdentifier(fn: T -> string)
      modifies this`identifier
      ensures identifier == fn
    {
      identifier := fn;
    }

    /** `onSelect(handler)`: replaces the registered handler; `None` (Java's
        `null`) unregisters it, so later selects call nothing. */
    method SetOnSelect(handler: Option<Handler>)
      modifies this`onSelect
      ensures onSelect == handler
    {
      onSelect := handler;
    }

    /** `collapseOnSelect()`: the flag can only be switched on. */
    method CollapseOnSelect()
      modifies this`collapseOnSelect
      ensures collapseOnSelect
    {
      collapseOnSelect := true;
    }

    /** `add(item)`: appends exactly one control, no duplicate detection. */
    method Add(item: T)
      requires Valid()
      modifies this`controls
      ensures Valid()
      ensures controls == old(controls) + [NewControl(item, identifier)]
    {
      controls := controls + [NewControl(item, identifier)];
    }

    /** `add(Iterable<T>)`: one control per item, in order. */
    method AddAll(items: seq<T>)
      requires Valid()
      modifies this`controls
      ensures Valid()
      ensures controls == old(controls) + Render(items, identifier)
    {
      var i := 0;
      while i < |items|
        invariant 0 <= i <= |items|
        invariant Valid()
        invariant controls == old(controls) + Render(items[..i], identifier)
      {
        Add(items[i]);
        assert Render(items[..i + 1], identifier)
            == Render(items[..i], identifier) + [NewControl(items[i], identifier)];
        i := i + 1;
      }
      assert items[..i] == items;
    }

    /** `select(item)`: sets the value, moves the check icon to exactly the
        controls whose identity matches, and calls the handler once. */
    method Select(item: T)
      requires Valid()
      modifies this`controls, this`value, this`events
      ensures Valid()
      ensures controls == Reticked(old(controls), identifier(item))
      ensures |controls| == |old(controls)|
      ensures forall k :: 0 <= k < |controls| ==>
        controls[k].checks == (if controls[k].id == identifier(item) then 1 else 0)
      ensures forall k :: 0 <= k < |controls| ==>
        controls[k] == old(controls)[k].(checks := controls[k].checks)
      ensures value == Some(item)
      ensures events == old(events) + Fires(item)
    {
      value := Some(item);
      var id := identifier(item);
      var i := 0;
      while i < |controls|
        invariant 0 <= i <= |controls| == |old(controls)|
        invariant forall k :: 0 <= k < i ==> controls[k] == Retick(old(controls)[k], id)
        invariant forall k :: i <= k < |controls| ==> controls[k] == old(controls)[k]
        modifies this`controls
      {
        controls := controls[i := Retick(controls[i], id)];
        i := i + 1;
      }
      assert controls == Reticked(old(controls), id);
      SelectExclusive(old(controls), id);
      SelectKeepsControls(old(controls), id);
      // the handler is called only when one is registered
      events := events + Fires(item);
    }

    /** The events a `select(item)` adds under the current handler: the calls
        `Notify` makes, in the menu's log. */
    function Fires(item: T): (r: seq<Event<T>>)
      reads this`onSelect
      ensures |r| == (if onSelect.Some? then 1 else 0)
      ensures onSelect.Some? ==> r[0] == Fired(Selection(onSelect.value, item))
    {
      var calls := Notify(onSelect, item);
      seq(|calls|, k requires 0 <= k < |calls| => Fired(calls[k]))
    }

    /** `itemElement(item)`: the first control tagged with the item's current
        identity, if there is one. */
    function ItemElement(item: T): (r: Option<nat>)
      reads this
      ensures r.Some? ==> r.value < |controls| && controls[r.value].id == identifier(item)
      ensures r.Some? ==> forall j :: 0 <= j < r.value ==> controls[j].id != identifier(item)
      ensures r.None? ==> forall j :: 0 <= j < |controls| ==> controls[j].id != identifier(item)
    {
      FirstMatch(controls, identifier(item))
    }

    /** `disable(item)`: disables the first matching control, if any. */
    method DisableItem(item: T)
      requires Valid()
      modifies this`controls
      ensures Valid()
      ensures controls == WithDisabled(old(controls), identifier(item), true)
    {
      var found := ItemElement(item);
      if found.Some? {
        controls := controls[found.value := controls[found.value].(disabled := true)];
      }
    }

    /** `enable(item)`: enables the first matching control, if any. */
    method EnableItem(item: T)
      requires Valid()
      modifies this`controls
      ensures Valid()
      ensures controls == WithDisabled(old(controls), identifier(item), false)
    {
      var found := ItemElement(item);
      if found.Some? {
        controls := controls[found.value := controls[found.value].(disabled := false)];
      }
    }

    /** Menu-level `disable()`. */
    method Disable()
      requires Valid()
      modifies this`triggerDisabled, this`plainDisabled
      ensures Valid()
      ensures triggerDisabled
      ensures plainDisabled == HasPlainWrapper(trigger)
    {
      triggerDisabled := true;
      if HasPlainWrapper(trigger) {
        plainDisabled := true;
      }
    }

    /** Menu-level `enable()`. */
    method Enable()
      requires Valid()
      modifies this`triggerDisabled, this`plainDisabled
      ensures Valid()
      ensures !triggerDisabled && !plainDisabled
    {
      triggerDisabled := false;
      if HasPlainWrapper(trigger) {
        plainDisabled := false;
      }
    }

    /** The toggle button's click handler: asks for the menu to expand. */
    method ClickTrigger()
      modifies this`events
      ensures events == old(events) + [Requested(Expand)]
    {
      events := events + [Requested(Expand)];
    }

    /** The click handler of control `i`: asks for a collapse first when
        `collapseOnSelect` is set, then selects the item the control was
        built for. */
    method ActivateItem(i: nat)
      requires Valid()
      requires i < |controls|
      modifies this`controls, this`value, this`events
      ensures Valid()
      ensures controls == Reticked(old(controls), identifier(old(controls)[i].item))
      ensures value == Some(old(controls)[i].item)
      ensures events == old(events)
        + (if collapseOnSelect then [Requested(Collapse)] else [])
        + Fires(old(controls)[i].item)
    {
      var item := controls[i].item;
      if collapseOnSelect {
        events := events + [Requested(Collapse)];
      }
      Select(item);
    }
  }

  /** A client of the menu: selecting `b` and then `c` leaves the icon on exactly
      the controls tagged with `c`'s identity, and the handler saw `b` and then
      `c`. */
  method SelectTwice<T>(m: SingleOptionsMenu<T>, b: T, c: T)
    requires m.Valid() && m.onSelect.Some?
    modifies m`controls, m`value, m`events
    ensures m.Valid() && m.value == Some(c)
    ensures forall k :: 0 <= k < |m.controls| ==>
      (m.controls[k].checks == 1 <==> m.controls[k].id == m.identifier(c))
    ensures m.events == old(m.events)
      + [Fired(Selection(m.onSelect.value, b)), Fired(Selection(m.onSelect.value, c))]
  {
    m.Select(b);
    m.Select(c);
  }
}
