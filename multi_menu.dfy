/** The grouped options menu (`MultiOptionsMenu` with `Group<T>`): a sequence
    of groups joined by separators, each group a single-select of its own whose
    check icons are rendered hidden and shown by `select`. */
module MultiMenu {
  import opened Common

  /** A child of the menu list: a separator `li`, or the `li` labelled with a
      group's text that holds the group's root. */
  datatype Child = Separator | GroupEntry(text: string)

  /** One rendered item of a group: the button in the group's root. It keeps
      the item its click handler selects, the identity written into both its
      own data attribute and its check icon's when it was rendered, and whether
      the icon is visible. The two tags come from two separate `itemId(item)`
      calls; one `id` stands for both because `identifier` is a pure function
      and does not change between the calls. */
  datatype ItemControl<T> = ItemControl(item: T, id: string, visible: bool)

  /** The children after adding one group labelled `text`: a separator first
      if the list already has children, then the group's entry. */
  function AppendGroup(children: seq<Child>, text: string): (r: seq<Child>)
    ensures |r| == |children| + (if children == [] then 1 else 2)
    ensures r[..|children|] == children
    ensures r[|r| - 1] == GroupEntry(text)
    ensures children != [] ==> r[|r| - 2] == Separator
  {
    (if |children| != 0 then children + [Separator] else children) + [GroupEntry(text)]
  }

  /** The children of a menu, starting empty, after groups with these labels
      were added in order. */
  function Layout(labels: seq<string>): seq<Child>
    decreases |labels|
  {
    if labels == [] then []
    else AppendGroup(Layout(labels[..|labels| - 1]), labels[|labels| - 1])
  }

  /** After k groups the menu has 2k-1 children: group entries at even
      positions, in the order the groups were added, separators at odd ones,
      never a separator first. */
  lemma {:induction false} LayoutShape(labels: seq<string>)
    ensures |Layout(labels)| == (if labels == [] then 0 else 2 * |labels| - 1)
    ensures forall j :: 0 <= j < |Layout(labels)| ==>
      Layout(labels)[j] == (if j % 2 == 0 then GroupEntry(labels[j / 2]) else Separator)
  {
    if labels != [] {
      var init := labels[..|labels| - 1];
      LayoutShape(init);
      var before := Layout(init);
      var after := Layout(labels);
      assert after == AppendGroup(before, labels[|labels| - 1]);
      forall j | 0 <= j < |after|
        ensures after[j] == (if j % 2 == 0 then GroupEntry(labels[j / 2]) else Separator)
      {
        if j < |before| {
          assert after[j] == after[..|before|][j];
          assert init[j / 2] == labels[j / 2];
        }
      }
    }
  }

  /** The controls that rendering `items` appends to a group's root, one per
      item in list order, each with its icon hidden. */
  function Render<T>(items: seq<T>, identifier: T -> string): seq<ItemControl<T>> {
    seq(|items|, k requires 0 <= k < |items| => ItemControl(items[k], identifier(items[k]), false))
  }

  /** The controls after a pass that shows the icons tagged `id` and hides the
      rest (`select`), or hides all of them when `shown` is `None`
      (`clearSelection`). */
  function Visibility<T>(cs: seq<ItemControl<T>>, shown: Option<string>): seq<ItemControl<T>> {
    seq(|cs|, k requires 0 <= k < |cs| => cs[k].(visible := shown == Some(cs[k].id)))
  }

  /** A visibility pass changes nothing but icon visibility, and afterwards an
      icon is visible iff its identity is the one shown. */
  lemma VisibilitySpec<T>(cs: seq<ItemControl<T>>, shown: Option<string>)
    ensures |Visibility(cs, shown)| == |cs|
    ensures forall k :: 0 <= k < |cs| ==>
      Visibility(cs, shown)[k].item == cs[k].item && Visibility(cs, shown)[k].id == cs[k].id
    ensures forall k :: 0 <= k < |cs| ==>
      (Visibility(cs, shown)[k].visible <==> shown.Some? && cs[k].id == shown.value)
  {
  }

  /** Only the last pass matters: clearing twice is clearing once, and
      selecting after clearing (or the other way round) is the last one alone. */
  lemma VisibilityLastWins<T>(cs: seq<ItemControl<T>>, first: Option<string>, second: Option<string>)
    ensures Visibility(Visibility(cs, first), second) == Visibility(cs, second)
  {
  }

  /** One group of a grouped options menu. */
  class Group<T> {
    /** The label of the group's entry in the menu. */
    const text: string
    /** `items`: only ever appended to. */
    var items: seq<T>
    /** `itemDisplay.identifier`. */
    var identifier: T -> string
    /** `value()`. */
    var value: Option<T>
    /** The registered `onSelect` handler. */
    var onSelect: Option<Handler>
    /** The item controls under the group's own `root` element. */
    var root: seq<ItemControl<T>>
    /** The calls made to `onSelect` handlers, in order. */
    var fired: seq<Selection<T>>

    constructor (text: string, identifier: T -> string)
      ensures this.text == text && this.identifier == identifier
      ensures items == [] && value == None && onSelect == None && root == [] && fired == []
    {
      this.text := text;
      this.identifier := identifier;
      items := [];
      value := None;
      onSelect := None;
      root := [];
      fired := [];
    }

    /** `add(item)`: only the item list grows; nothing is rendered, so an item
        added after the group was added to a menu gets no control until the
        group is added to a menu again. */
    method Add(item: T)
      modifies this`items
      ensures items == old(items) + [item]
    {
      items := items + [item];
    }

    /** `add(Iterable<T>)`. */
    method AddAll(xs: seq<T>)
      modifies this`items
      ensures items == old(items) + xs
    {
      var i := 0;
      while i < |xs|
        invariant 0 <= i <= |xs|
        invariant items == old(items) + xs[..i]
      {
        Add(xs[i]);
        assert xs[..i + 1] == xs[..i] + [xs[i]];
        i := i + 1;
      }
      assert xs[..i] == xs;
    }

    /** `identifier(fn)`: controls already rendered keep their tags. */
    method SetIdentifier(fn: T -> string)
      modifies this`identifier
      ensures identifier == fn
    {
      identifier := fn;
    }

    /** `onSelect(handler)`: replaces the group's handler; `None` (Java's
        `null`) unregisters it. */
    method SetOnSelect(handler: Option<Handler>)
      modifies this`onSelect
      ensures onSelect == handler
    {
      onSelect := handler;
    }

    /** `select(item, fireEvent)`: sets the value, makes exactly the icons
        tagged with the item's identity visible, and calls the handler once if
        `fireEvent` is set and a handler is registered. */
    method SelectWith(item: T, fireEvent: bool)
      modifies this`value, this`root, this`fired
      ensures value == Some(item)
      ensures root == Visibility(old(root), Some(identifier(item)))
      ensures |root| == |old(root)|
      ensures forall k :: 0 <= k < |root| ==>
        root[k] == old(root)[k].(visible := root[k].visible)
      ensures forall k :: 0 <= k < |root| ==>
        (root[k].visible <==> root[k].id == identifier(item))
      ensures fired == old(fired) + Notify(if fireEvent then onSelect else None, item)
    {
      value := Some(item);
      var id := identifier(item);
      var i := 0;
      while i < |root|
        invariant 0 <= i <= |root| == |old(root)|
        invariant forall k :: 0 <= k < i ==> root[k] == old(root)[k].(visible := id == old(root)[k].id)
        invariant forall k :: i <= k < |root| ==> root[k] == old(root)[k]
        modifies this`root
      {
        root := root[i := root[i].(visible := id == root[i].id)];
        i := i + 1;
      }
      assert root == Visibility(old(root), Some(id));
      // the handler is called only when `fireEvent` is set and one is registered
      fired := fired + Notify(if fireEvent then onSelect else None, item);
    }

    /** `select(item)`: the same as `select(item, true)`. */
    method Select(item: T)
      modifies this`value, this`root, this`fired
      ensures value == Some(item)
      ensures root == Visibility(old(root), Some(identifier(item)))
      ensures fired == old(fired) + Notify(onSelect, item)
    {
      SelectWith(item, true);
    }

    /** `clearSelection()`: no value, every icon hidden, no event. */
    method ClearSelection()
      modifies this`value, this`root
      ensures value == None
      ensures root == Visibility(old(root), None)
      ensures |root| == |old(root)|
      ensures forall k :: 0 <= k < |root| ==> root[k] == old(root)[k].(visible := false)
    {
      value := None;
      var i := 0;
      while i < |root|
        invariant 0 <= i <= |root| == |old(root)|
        invariant forall k :: 0 <= k < i ==> root[k] == old(root)[k].(visible := false)
        invariant forall k :: i <= k < |root| ==> root[k] == old(root)[k]
        modifies this`root
      {
        root := root[i := root[i].(visible := false)];
        i := i + 1;
      }
    }
  }

  /** A grouped options menu. Groups may have different item types, so the
      menu itself is not generic. */
  class MultiOptionsMenu {
    /** Which factory built the trigger. */
    const trigger: Trigger
    /** The children of the menu list, in document order. */
    var children: seq<Child>
    /** The labels of the groups added so far, in order. */
    ghost var labels: seq<string>
    var collapseOnSelect: bool
    /** `button.disabled` of the toggle button. */
    var triggerDisabled: bool
    /** Whether the plain wrapper carries the disabled modifier. */
    var plainDisabled: bool
    /** Requests to the collapse/expand handler, in order. */
    var requests: seq<ToggleRequest>

    ghost predicate Valid()
      reads this
    {
      children == Layout(labels) && (plainDisabled ==> HasPlainWrapper(trigger))
    }

    constructor (trigger: Trigger)
      ensures Valid()
      ensures this.trigger == trigger && children == [] && labels == []
      ensures !collapseOnSelect && !triggerDisabled && !plainDisabled && requests == []
    {
      this.trigger := trigger;
      children := [];
      labels := [];
      collapseOnSelect := false;
      triggerDisabled := false;
      plainDisabled := false;
      requests := [];
    }

    /** `add(group)`: a separator if the list already has children, the
        group's entry, then one control per item of the group at this moment,
        appended to the group's root with its icon hidden. */
    method Add<T>(g: Group<T>)
      requires Valid()
      modifies this`children, this`labels, g`root
      ensures Valid()
      ensures labels == old(labels) + [g.text]
      ensures children == AppendGroup(old(children), g.text)
      ensures g.root == old(g.root) + Render(g.items, g.identifier)
    {
      if |children| != 0 {
        children := children + [Separator];
      }
      children := children + [GroupEntry(g.text)];
      labels := labels + [g.text];
      assert labels[..|labels| - 1] == old(labels);
      var i := 0;
      while i < |g.items|
        invariant 0 <= i <= |g.items|
        invariant g.root == old(g.root) + Render(g.items[..i], g.identifier)
        modifies g`root
      {
        var item := g.items[i];
        g.root := g.root + [ItemControl(item, g.identifier(item), false)];
        assert Render(g.items[..i + 1], g.identifier)
            == Render(g.items[..i], g.identifier) + [ItemControl(item, g.identifier(item), false)];
        i := i + 1;
      }
      assert g.items[..i] == g.items;
    }

    /** `collapseOnSelect()`: the flag can only be switched on. */
    method CollapseOnSelect()
      modifies this`collapseOnSelect
      ensures collapseOnSelect
    {
      collapseOnSelect := true;
    }

    /** Menu-level `disable()`. */
    method Disable()
      requires Valid()
      modifies this`triggerDisabled, this`plainDisabled
      ensures Valid()
      ensures triggerDisabled
      ensures plainDisabled == HasPlainWrapper(trigger)
    {
      triggerDisabled := true;
      if HasPlainWrapper(trigger) {
        plainDisabled := true;
      }
    }

    /** Menu-level `enable()`. */
    method Enable()
      requires Valid()
      modifies this`triggerDisabled, this`plainDisabled
      ensures Valid()
      ensures !triggerDisabled && !plainDisabled
    {
      triggerDisabled := false;
      if HasPlainWrapper(trigger) {
        plainDisabled := false;
      }
    }

    /** The toggle button's click handler: asks for the menu to expand. */
    method ClickTrigger()
      modifies this`requests
      ensures requests == old(requests) + [Expand]
    {
      requests := requests + [Expand];
    }

    /** The click handler of control `i` of group `g`: asks for a collapse
        first when `collapseOnSelect` is set, then `g.select(item)`. */
    method ActivateItem<T>(g: Group<T>, i: nat)
      requires i < |g.root|
      modifies this`requests, g`value, g`root, g`fired
      ensures requests == old(requests) + (if collapseOnSelect then [Collapse] else [])
      ensures g.value == Some(old(g.root)[i].item)
      ensures g.root == Visibility(old(g.root), Some(g.identifier(old(g.root)[i].item)))
      ensures g.fired == old(g.fired) + Notify(g.onSelect, old(g.root)[i].item)
    {
      var item := g.root[i].item;
      if collapseOnSelect {
        requests := requests + [Collapse];
      }
      g.Select(item);
    }
  }

  /** Group isolation: `select` on one group leaves every other group, its
      value, its icons and its handler calls, exactly as it was. */
  method SelectIsolated<T, U>(g: Group<T>, other: Group<U>, item: T)
    requires g != other
    modifies g
    ensures unchanged(other)
    ensures g.value == Some(item)
  {
    g.Select(item);
  }

  /** Group isolation for `clearSelection`. */
  method ClearIsolated<T, U>(g: Group<T>, other: Group<U>)
    requires g != other
    modifies g
    ensures unchanged(other)
    ensures g.value == None
  {
    g.ClearSelection();
  }
}
