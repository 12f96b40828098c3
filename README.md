# Options-menu selection model (patternfly-java)

This project models, in Dafny, the selection behaviour of the two options-menu
widgets of the PatternFly Java components. It then proves properties of that model.

- `SingleOptionsMenu<T>` is one flat list of item controls. Selecting an item
  sets the menu's `value`, puts the check icon on exactly the controls tagged
  with the item's identity, and calls the registered `onSelect` handler.
- `MultiOptionsMenu` holds `Group<T>`s, with a separator between consecutive
  groups. Each group is its own single-select. Its check icons are rendered
  hidden, and `select(item, fireEvent)` / `clearSelection()` show or hide
  them inside the group's own root only.

The model has three modules:

- `Common` (`common.dfy`): the shared vocabulary. This is an optional value,
  handler identities, one `onSelect` call (`Selection`), requests to the
  collapse/expand handler, and the three trigger variants.
- `SingleMenu` (`single_menu.dfy`): the class `SingleOptionsMenu<T>`. Its fields
  are the Java fields `value`, `onSelect` and `collapseOnSelect`, the item
  controls of the menu list (`controls`), the disabled state of the trigger,
  and a log of requests and handler calls (`events`). Pure functions on the
  control sequence define what `select`, `disable(item)` and `enable(item)`
  do. The lemmas about them state exclusivity, round trips and no-ops.
- `MultiMenu` (`multi_menu.dfy`): the classes `Group<T>` and `MultiOptionsMenu`.
  A group holds its `items`, `value`, handler, and the item controls under
  its `root`. The menu holds the children of its list (separators and group
  entries) and its log of collapse/expand requests.

Collaborators whose code is not part of this model are parameters:

- The identity function `ItemDisplay.itemId` is the field `identifier: T -> string`.
  Each constructor takes it as a parameter, and `identifier(fn)` replaces it.
- The collapse/expand handler is a sink. `expand` and `collapse` calls are
  appended to the menu's log.
- An `onSelect` handler is an opaque `Handler` identity. Each call it receives
  is logged with the selected item.

Every method of the three classes states its whole effect. Each one names
the fields it may change with a field frame (`modifies this\`controls`). A
caller therefore knows that no other field changes. For example,
`collapseOnSelect` starts false, and only `CollapseOnSelect` may write it,
which sets it to true. The client methods outside the classes
(`SelectTwice`, `SelectIsolated`, `ClearIsolated`) state only the property
they illustrate.

Three behaviours of the code differ from what one might expect of an options
menu. The model follows the code in each case:

- The checked indicators do not always match the selected item's identity.
  A control added after a `select` starts without an icon (single-select), or
  with a hidden icon (groups), even when its identity matches the current value.
- Disabling a menu does not close it. `disable()` only sets `button.disabled`
  and, on the plain variant, toggles the disabled modifier.
- Only `Group.select(item, fireEvent)` can suppress the `onSelect` call. The
  single-select `select` always calls the handler.

## Model

| member | source | states |
|---|---|---|
| `Common.Notify` | src/main/java/org/patternfly/client/components/SingleOptionsMenu.java:194-196 | a `select` calls the registered handler exactly once with the item, and makes no call when no handler is set |
| `SingleMenu.SingleOptionsMenu.constructor` | src/main/java/org/patternfly/client/components/SingleOptionsMenu.java:66-70 | a new menu has no controls, no value and no handler; `collapseOnSelect` is false; the trigger is enabled |
| `SingleMenu.SingleOptionsMenu.SetIdentifier` | src/main/java/org/patternfly/client/components/SingleOptionsMenu.java:168-171 | replaces only the identity function; controls already added keep their tags |
| `SingleMenu.SingleOptionsMenu.SetOnSelect` | src/main/java/org/patternfly/client/components/SingleOptionsMenu.java:259-262 | replaces only the registered handler; passing none (Java's `null`) unregisters it, after which `select` calls nothing |
| `SingleMenu.SingleOptionsMenu.CollapseOnSelect` | src/main/java/org/patternfly/client/components/SingleOptionsMenu.java:210-213 | sets the flag to true; no other method writes it, so it never goes back to false |
| `SingleMenu.SingleOptionsMenu.Add` | src/main/java/org/patternfly/client/components/SingleOptionsMenu.java:150-166 | appends exactly one control at the end, tagged with the identity computed now, without an icon and enabled; earlier controls are unchanged; no duplicate check |
| `SingleMenu.SingleOptionsMenu.AddAll` | src/main/java/org/patternfly/client/components/SingleOptionsMenu.java:136-141 | appends one control per item, in iteration order |
| `SingleMenu.SingleOptionsMenu.Select` | src/main/java/org/patternfly/client/components/SingleOptionsMenu.java:178-198 | `value` becomes the item; a control holds one icon iff its identity equals the item's and none otherwise; items, identities, disabled flags and order are unchanged; the handler is called once per call, including re-selecting the same item |
| `SingleMenu.SingleOptionsMenu.Fires` | src/main/java/org/patternfly/client/components/SingleOptionsMenu.java:194-196 | one `select` logs exactly one handler call, with the item, when a handler is registered, and none otherwise; it is `Notify`'s calls in the menu's log |
| `SingleMenu.SingleOptionsMenu.ItemElement` | src/main/java/org/patternfly/client/components/SingleOptionsMenu.java:266-269 | finds the first control tagged with the item's current identity, or reports that no control is tagged with it |
| `SingleMenu.SingleOptionsMenu.DisableItem` | src/main/java/org/patternfly/client/components/SingleOptionsMenu.java:233-238 | disables the first matching control and no other; a silent no-op without a match |
| `SingleMenu.SingleOptionsMenu.EnableItem` | src/main/java/org/patternfly/client/components/SingleOptionsMenu.java:240-245 | enables the first matching control and no other; a silent no-op without a match |
| `SingleMenu.SingleOptionsMenu.Disable` | src/main/java/org/patternfly/client/components/SingleOptionsMenu.java:215-222 | the trigger becomes disabled; the disabled modifier is set iff the plain wrapper exists |
| `SingleMenu.SingleOptionsMenu.Enable` | src/main/java/org/patternfly/client/components/SingleOptionsMenu.java:224-231 | the trigger becomes enabled and no disabled modifier remains |
| `SingleMenu.SingleOptionsMenu.ClickTrigger` | src/main/java/org/patternfly/client/components/SingleOptionsMenu.java:77 | a click on the toggle button requests one `expand` and changes nothing else |
| `SingleMenu.SingleOptionsMenu.ActivateItem` | src/main/java/org/patternfly/client/components/SingleOptionsMenu.java:156-161 | clicking a control requests `collapse` iff `collapseOnSelect` is set, and logs it before the `onSelect` call; it then selects the item the control was built for |
| `SingleMenu.SelectExclusive` | src/main/java/org/patternfly/client/components/SingleOptionsMenu.java:181-192 | if no control held two icons before, then after the select pass a control holds exactly one icon when its identity matches and none otherwise |
| `SingleMenu.SelectKeepsControls` | src/main/java/org/patternfly/client/components/SingleOptionsMenu.java:181-192 | the select pass changes only icon counts: same length, same items, identities and disabled flags |
| `SingleMenu.SelectIdempotent` | src/main/java/org/patternfly/client/components/SingleOptionsMenu.java:181-192 | running the select pass twice for one identity leaves the same icons as running it once |
| `SingleMenu.FirstMatch` | src/main/java/org/patternfly/client/components/SingleOptionsMenu.java:266-269 | returns the index of the first control in document order tagged with the identity; `None` exactly when none is tagged |
| `SingleMenu.WithDisabled` | src/main/java/org/patternfly/client/components/SingleOptionsMenu.java:233-245 | only the first matching control gets the new disabled flag; all others, and that control's other parts, are unchanged |
| `SingleMenu.DisableMissingIsNoOp` | src/main/java/org/patternfly/client/components/SingleOptionsMenu.java:235-237 | when no control matches, disable/enable leave the controls exactly as they were |
| `SingleMenu.EnableAfterDisable` | src/main/java/org/patternfly/client/components/SingleOptionsMenu.java:233-245 | `disable(item)` followed by `enable(item)` equals `enable(item)` alone, and restores the original controls when the matched control was enabled before |
| `SingleMenu.SelectTwice` | src/main/java/org/patternfly/client/components/SingleOptionsMenu.java:178-198 | selecting B and then C leaves icons only on controls with C's identity; the handler received B, then C |
| `MultiMenu.AppendGroup` | src/main/java/org/patternfly/client/components/MultiOptionsMenu.java:127-133 | adding a group keeps the existing children, adds a separator iff there were children already, then the group's entry |
| `MultiMenu.LayoutShape` | src/main/java/org/patternfly/client/components/MultiOptionsMenu.java:127-133 | after k groups the menu has 2k-1 children (none for k = 0); group entries sit at even positions in the order added and separators at odd ones, so the first child is never a separator |
| `MultiMenu.VisibilitySpec` | src/main/java/org/patternfly/client/components/MultiOptionsMenu.java:264-267 | a show/hide pass keeps items and identities; afterwards an icon is visible iff its identity is the one shown |
| `MultiMenu.VisibilityLastWins` | src/main/java/org/patternfly/client/components/MultiOptionsMenu.java:261-281 | two passes in a row equal the second alone; in particular `clearSelection` twice equals once |
| `MultiMenu.Group.constructor` | src/main/java/org/patternfly/client/components/MultiOptionsMenu.java:206-211 | a new group has no items, no value, no handler and no rendered controls |
| `MultiMenu.Group.Add` | src/main/java/org/patternfly/client/components/MultiOptionsMenu.java:232-235 | only appends to `items`; the rendered controls are untouched, so an item added after the group was added to a menu is not rendered until the group is added to a menu again |
| `MultiMenu.Group.AddAll` | src/main/java/org/patternfly/client/components/MultiOptionsMenu.java:218-223 | appends all items in order, nothing else |
| `MultiMenu.Group.SetIdentifier` | src/main/java/org/patternfly/client/components/MultiOptionsMenu.java:242-245 | replaces only the identity function; rendered controls keep their tags |
| `MultiMenu.Group.SetOnSelect` | src/main/java/org/patternfly/client/components/MultiOptionsMenu.java:252-255 | replaces only the group's handler; passing none (Java's `null`) unregisters it |
| `MultiMenu.Group.SelectWith` | src/main/java/org/patternfly/client/components/MultiOptionsMenu.java:261-273 | `value` becomes the item; every icon in the group's root is visible iff its identity equals the item's; nothing else in the controls changes; the handler is called once iff `fireEvent` is set and a handler is registered |
| `MultiMenu.Group.Select` | src/main/java/org/patternfly/client/components/MultiOptionsMenu.java:257-259 | behaves as `select(item, true)` |
| `MultiMenu.Group.ClearSelection` | src/main/java/org/patternfly/client/components/MultiOptionsMenu.java:275-281 | `value` becomes absent and every icon of the group is hidden; no handler is called |
| `MultiMenu.MultiOptionsMenu.constructor` | src/main/java/org/patternfly/client/components/MultiOptionsMenu.java:64-67 | a new menu has no children and no requests; `collapseOnSelect` is false |
| `MultiMenu.MultiOptionsMenu.Add` | src/main/java/org/patternfly/client/components/MultiOptionsMenu.java:127-158 | appends a separator iff the menu had children, then the group's entry, so the children remain the layout of all groups added; each item the group has now gets exactly one control in list order, carrying the item's identity with its icon hidden |
| `MultiMenu.MultiOptionsMenu.CollapseOnSelect` | src/main/java/org/patternfly/client/components/MultiOptionsMenu.java:170-173 | sets the flag to true; no other method writes it |
| `MultiMenu.MultiOptionsMenu.Disable` | src/main/java/org/patternfly/client/components/MultiOptionsMenu.java:175-182 | the trigger becomes disabled; the disabled modifier is set iff the plain wrapper exists |
| `MultiMenu.MultiOptionsMenu.Enable` | src/main/java/org/patternfly/client/components/MultiOptionsMenu.java:184-191 | the trigger becomes enabled and no disabled modifier remains |
| `MultiMenu.MultiOptionsMenu.ClickTrigger` | src/main/java/org/patternfly/client/components/MultiOptionsMenu.java:74 | a click on the toggle button requests one `expand` |
| `MultiMenu.MultiOptionsMenu.ActivateItem` | src/main/java/org/patternfly/client/components/MultiOptionsMenu.java:140-145 | clicking a group's control requests `collapse` iff `collapseOnSelect` is set, then selects that control's item in its group, firing the group's handler |
| `MultiMenu.SelectIsolated` | src/main/java/org/patternfly/client/components/MultiOptionsMenu.java:264-265 | `select` on one group leaves every field of any other group unchanged (value, icons, handler calls) |
| `MultiMenu.ClearIsolated` | src/main/java/org/patternfly/client/components/MultiOptionsMenu.java:277 | `clearSelection` on one group leaves every other group unchanged |

## Left out

- The collapse/expand handler (`CollapseExpandHandler`) is not part of this model. `expand` and `collapse` are only recorded as requests. Open/closed state, idempotence, outside-click and Escape closing, and the `onToggle(...)` setter that forwards to it are not modelled.
- `ItemDisplay` is not part of this model. `display(fn)` and the display callback have no effect on the selection state, so they are not modelled. The default identity (the item's string conversion) is replaced by the identity function given to the constructor.
- DOM construction is left out because it is cosmetic: CSS classes, aria and role attributes, generated ids, `up()`, `right()`, and the markup of the three trigger variants. Only whether the plain wrapper exists is kept, because `disable()`/`enable()` depend on it.
- `add(T[])` behaves exactly like `add(Iterable<T>)`. Both are `AddAll`.
- `value()` is the field `value`, read directly.
- Event dispatch is left out. A click is a direct method call. The platform rule that a disabled button receives no clicks is not modelled, so `ActivateItem` and `ClickTrigger` can be called on disabled controls.
- Rendered controls are values in their menu's or group's sequence, so DOM node identity and aliasing are not modelled. One effect: adding the same group to a menu twice appends its items to the root twice, as the code does. But the model keeps both group entries, while the DOM moves the root into the newer one.
- `MultiMenu.MultiOptionsMenu.ActivateItem`: its contract does not state that the collapse request comes before the `onSelect` call. The request is logged on the menu and the call on the group, in two separate logs. The model also does not record which menu rendered a control, so the caller passes the group.
- Java `null` items and the exceptions they would cause are not modelled. An absent value exists only before the first `select`, or after `clearSelection`.
- Button, Chip, EmptyState, Card, Avatar, BaseComponent and InputGroup (including `Search.bind`) are not part of this model. They are static element builders or event-listener plumbing.
