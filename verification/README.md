# knockout-web-components binding, modelled in Dafny

The repository provides one Knockout binding handler, `webcomp`. It keeps a custom
element's properties and event listeners in step with a map of named parameters:

- a parameter whose name starts with `on` and whose (unwrapped) value is a function is
  attached as an event listener, for the event named by `getEventName`;
- every other parameter is assigned to the element property of the same name, on every
  update;
- a per-element registry (a `WeakMap` from element to an object mapping event name to
  listener) remembers which listener the binding attached for each event, so a
  listener can be replaced, pruned when its event name is no longer produced by any
  parameter name, and detached when the element is disposed.

This project models all of `src/index.js` as pure functions and proves what they do.

- `EventNames` (`event_names.dfy`): `getEventName` as the left-to-right scan of a regular
  expression engine looking for `/on./`, together with the `startsWith("on")` test.
- `Dom` (`dom.dfy`): the three DOM calls the binding makes (property write,
  `addEventListener`, `removeEventListener`) as an `Effect` trace, and what a trace does
  to an element (its properties and its set of attached listener pairs).
- `Registry` (`registry.dfy`): the listener object as its own entries in insertion
  order, with distinct keys. It supports lookup, assignment (an existing key keeps its
  place) and delete.
- `Binding` (`binding.dfy`): `setProperty`, `removeListenerByKey`, the prune and assign
  phases of `update`, `update` itself, and the dispose loop. Each returns the new
  registry and the exact trace of DOM calls, in order.
- `BindingProperties` (`binding_properties.dfy`): the invariant that the listeners
  attached through the binding are exactly the registry's pairs. It also holds the
  second-`update` property and what `update` leaves in the element's properties.
- `Lifecycle` (`lifecycle.dfy`): a world of elements plus the element-to-registry map,
  with `init`, `update` on one element, the dispose callback, and the invariant across
  them.
- `BindingExamples` (`binding_examples.dfy`): listener replacement and removal,
  properties rewritten on every pass, an `on` name whose value stops being a function,
  colliding event names, full teardown and observable resolution.

Knockout's value unwrapping (`ko.toJS`, whose two arms at lines 52-56 are identical) is
a parameter `resolve: R -> Value` over an arbitrary raw parameter type `R`. Function
identity is an opaque `FnRef` compared with `==`, as `!==` compares references.

Where the handler's documented intent and its code differ, the model follows the code:

- The prune in `update` keeps a registry key when some parameter *name* normalises to
  it. It does not look at whether the value is still a function. Going from
  `{onClick: f}` to `{onClick: 5}` therefore keeps `f` attached and also writes 5 to the
  `onClick` property (`BindingExamples.NonFunctionKeepsListener`). A non-`on` name such
  as `click` also keeps the `click` listener alive.
- `getEventName` is not anchored at the start of the name: `buttonText` becomes
  `butttext`. After a leading `on` followed by a line terminator, the search moves on
  to the next `on` (`EventNames.EventNameTerminatorExample`).
- Two listener parameters whose names normalise to the same event (`onClick` and
  `onclick`) and that are bound to different functions swap those functions on every
  pass, so a repeated `update` is not quiet for them
  (`BindingExamples.CollidingListenersChurn`). With the same function they are quiet
  (`BindingExamples.SameFunctionCollisionIsQuiet`). A second `update` makes no
  listener call exactly when listener parameters for one event carry one function
  (`BindingProperties.UpdateTwiceQuietIff`); the registry's bindings are stable in
  every case (`BindingProperties.UpdateTwiceSameBindings`).

## Model

| member | source | states |
|---|---|---|
| EventNames.EventName | src/index.js:107-109 | with no `/on./` match the name is unchanged; otherwise, at the leftmost match position i, the result is the prefix before i, then the lower-cased matched character, then everything after the match |
| EventNames.EventNameChangesIffMatch | src/index.js:108 | the name changes exactly when `/on./` matches somewhere, and then it is exactly two characters shorter |
| EventNames.EventNameOfOnPrefix | src/index.js:108 | `"on" + c + rest` normalises to `lower(c) + rest` whenever `c` is not a line terminator |
| EventNames.EventNameExamples | src/index.js:108 | `onClick` gives `click`, `onAB` gives `aB`, `onx` gives `x` |
| EventNames.EventNameInsideExample | src/index.js:108 | the unanchored match rewrites an inner "on": `buttonText` gives `butttext` |
| EventNames.EventNameTerminatorExample | src/index.js:108 | a line terminator after the leading "on" makes the search continue: `on\nonX` gives `on\nx` |
| EventNames.EventNameBareOnExample | src/index.js:108 | a bare `on` has no character for `.` to match and names the event `on` |
| Registry.Get | src/index.js:77 | a lookup finds a listener exactly when the key is registered, and what it finds is that key's entry |
| Registry.Put | src/index.js:83 | after assignment the key maps to the new listener, no other key changes, and the key order is kept (a new key is appended) |
| Registry.Delete | src/index.js:100 | after delete the key is absent, no other key changes, and deleting an absent key changes nothing |
| Registry.AtMostOnePerEvent | src/index.js:83 | a registry records at most one listener per event name |
| Binding.SetProperty | src/index.js:71-89 | a listener parameter whose function is already registered causes no call. A new function detaches the old listener (if any), attaches and records the new one, and leaves other keys alone. Every other parameter is one property write, with the registry unchanged |
| Binding.RemoveListenerByKey | src/index.js:97-101 | the key is gone from the registry and every other key is unchanged; the trace is one `removeEventListener` of the listener registered under the key, or nothing when the key is absent |
| Binding.TargetsMeaning | src/index.js:43-44 | a key survives the prune exactly when some parameter name normalises to it |
| Binding.Prune | src/index.js:42-46 | the surviving keys are the old keys whose names are still targeted, with their listeners unchanged. The trace is one removal per dropped entry, in registry order, and only parameter names decide |
| Binding.Assign | src/index.js:49-59 | each event name ends up bound to the function of its last listener parameter (the reference `LastBinding`, a backward scan); other keys keep their entries; the property writes are the non-listener parameters, in order |
| Binding.Update | src/index.js:34-60 | the registry after update follows the last-listener rule, else the old entry if the key is still targeted, else nothing. The trace starts with the pruned listeners' removals and writes every non-listener parameter |
| Binding.Teardown | src/index.js:24-29 | the dispose loop leaves the registry empty and removes every registered listener once, in registry order |
| BindingProperties.SetPropertyKeepsSync | src/index.js:71-89 | if the attached listeners equal the registry pairs before `setProperty`, they still do after it |
| BindingProperties.RemoveListenerByKeyKeepsSync | src/index.js:97-101 | `removeListenerByKey` keeps the attached listeners equal to the registry pairs |
| BindingProperties.UpdateKeepsSync | src/index.js:34-60 | `update` keeps the attached listeners equal to the registry pairs, so there is at most one listener per event |
| BindingProperties.TeardownDetachesAll | src/index.js:23-31 | after the dispose loop no listener attached through the binding remains |
| BindingProperties.PruneOfTargeted | src/index.js:42-46 | when every registered key is still targeted, the prune makes no call and changes nothing |
| BindingProperties.AssignOverRegistered | src/index.js:78 | assigning parameters whose listeners are all registered already makes no listener call, only the property writes |
| BindingProperties.SecondPruneIsQuiet | src/index.js:42-46 | the second `update` with the same parameters prunes nothing: every key the first left is one a parameter name normalises to |
| BindingProperties.UpdateTwiceIsQuiet | src/index.js:34-60 | when listener parameters for one event carry one function, a second `update` with the same parameters leaves the registry as it is, makes no listener call, and writes every non-listener parameter again |
| BindingProperties.QuietAssignFoundRegistered | src/index.js:77-78 | an assign loop that makes no listener call found every listener parameter's function already registered for its event |
| BindingProperties.UpdateTwiceQuietIff | src/index.js:74-85 | the second `update` makes no listener call if and only if listener parameters that bind the same event carry the same function |
| BindingProperties.SecondPassKeepsListeners | src/index.js:34-60 | under the same condition, the second `update` leaves the element's attached listeners exactly as the first left them |
| BindingProperties.UpdateTwiceSameBindings | src/index.js:34-60 | for any parameters, colliding event names included, a second `update` leaves every event name bound as the first left it |
| BindingProperties.UpdateSetsProperties | src/index.js:86-88 | after `update` every non-listener parameter's property holds its resolved value, and no other property changed |
| Lifecycle.Init | src/index.js:19-20 | the element gets an empty registry; other elements and all element state are unchanged |
| Lifecycle.UpdateElement | src/index.js:34-60 | only the updated element and its registry change, by exactly the update's trace and registry |
| Lifecycle.Dispose | src/index.js:23-32 | the element's registry association is gone and the element received one removal per registered listener; without a registry nothing changes |
| Lifecycle.InitKeepsSynced | src/index.js:20 | `init` on an element without a registry keeps every element's listeners equal to its registry pairs |
| Lifecycle.ReinitOrphansListeners | src/index.js:20 | `init` on an element whose registry holds a listener leaves that listener attached with no entry, which breaks the invariant |
| Lifecycle.UpdateElementKeepsSynced | src/index.js:34-60 | `update` on a registered element keeps the world's invariant |
| Lifecycle.DisposeKeepsSynced | src/index.js:23-31 | dispose keeps the world's invariant and leaves the element with no listener attached through the binding |
| Lifecycle.DisposeTwice | src/index.js:24-31 | a second dispose finds no registry and changes nothing |
| BindingExamples.ListenerReplacement | src/index.js:77-84 | from `{onX: f1}` to `{onX: f2}`: `f1` is removed, then `f2` is attached, each once, and the event maps to `f2` |
| BindingExamples.ListenerRemovedOnOmission | src/index.js:42-46 | from `{onX: f1}` to `{}`: `f1` is removed and the registry is empty |
| BindingExamples.PropertyAlwaysReassigned | src/index.js:86-88 | `{label: a}` twice writes `label` on both passes |
| BindingExamples.NonFunctionKeepsListener | src/index.js:42-46 | from `{onX: f}` to `{onX: 5}` the listener stays registered and attached, and 5 is written to the `onX` property |
| BindingExamples.CollidingListenersFirstPass | src/index.js:49-59 | two `on` names with one event, from an empty registry: the later parameter's function is registered |
| BindingExamples.CollidingListenersChurn | src/index.js:74-84 | with two `on` names for one event and the second one's function registered, a repeated pass removes it, adds the first, removes that, and adds the second again |
| BindingExamples.ClickCollision | src/index.js:74-84 | `{onClick: f, onclick: g}` twice: the second pass makes four listener calls on `click` |
| BindingExamples.SameFunctionCollisionIsQuiet | src/index.js:77-78 | two `on` names for one event carrying the same function: the second pass makes no call and keeps the registry |
| BindingExamples.ClickSameFunction | src/index.js:77-78 | `{onClick: f, onclick: f}` twice: the second pass makes no call |
| BindingExamples.TwoListenersAttached | src/index.js:49-59 | two listener parameters for distinct events, from an empty registry, leave exactly both (event, function) pairs registered |
| BindingExamples.FullTeardown | src/index.js:19-31 | init, update with two listeners, then dispose: both are attached after the update, none remain after the dispose, and the registry is gone |
| BindingExamples.ObservableResolution | src/index.js:50-58 | an observable holding a function is attached as a listener, and an observable holding a datum is written as a property |

## Left out

- Knockout itself is not part of this model: `ko.unwrap` of the parameter object, `ko.isObservable`/`ko.toJS` (an abstract `resolve` function) and the handler registration at line 62. Parameters are a sequence of distinct `(name, value)` pairs in `Object.keys` order.
- `ko.utils.domNodeDisposal.addDisposeCallback` is not modelled: `Lifecycle.Dispose` is the callback, and the caller decides when it runs.
- `WeakMap` garbage collection: the element-to-registry map is a plain map with explicit delete.
- Real DOM behaviour: property setters with side effects or exceptions, listener options and capture, and listeners attached by other code. An element's listener set holds only the pairs the binding attached.
- Exceptions part-way through `update` (partial convergence) are not modelled; every call is assumed to succeed.
- Calling `update` before `init` throws in the source: the lookup at line 37 yields `undefined`, and `Object.keys(listeners)` at line 42 raises a `TypeError`. It is a precondition of `Lifecycle.UpdateElement` instead.
- `toLowerCase` is modelled for ASCII letters only (`EventNames.Lower` leaves every other character as it is). JavaScript strings are UTF-16 code units while Dafny characters are Unicode scalar values. With identity on non-ASCII characters, `.` matching half of a surrogate pair gives the same result.
- `Object.keys` lists array-index-like keys (such as an event named `1`) before the others; the registry keeps plain insertion order. This only affects the order of removal calls in the prune and the dispose loop.
- Keys inherited from `Object.prototype` (`constructor`, `toString`, `__proto__`) are treated as absent from the listener object. In the source, a lookup of such a key finds an inherited function, and assigning `__proto__` changes the prototype instead of adding an entry.
