# Genesis input-action layer in Dafny

This project models the input layer of the Genesis viewer. The layer binds
physical buttons (keyboard keys, pointer buttons) to named logical actions.
It tracks each action's state from tick to tick. The repository has two
prototypes of it, and each one is its own module.

- `InputActions` (`input_actions.dfy`) models `src/input/mod.rs`. It is a class
  `Input` holding two maps, `bindings: Button -> name` and
  `actions: name -> Action`. It also holds the pointer motion accumulated
  during the tick. An `Action` has three flags: `isDown`, `justDown` and `justUp`.
  `update_action` applies an edge-detecting transition. It ignores repeated
  values and unknown names. `update` ends a tick: it clears every edge flag and
  zeroes the pointer motion, using a loop over the action table. The pure
  functions `Transition`, `ActionEffect` and `ClearedActions` give the meaning of
  one step. The `Replay` lemmas describe a whole tick of events for one action.
  `FlatSetup` replays the application's six registrations and bindings
  (`src/main.rs:76-98`). `ForwardScenario` then feeds key events as the
  application's event handler does (`src/main.rs:111-115`) and ends the tick
  (`src/main.rs:176`). Two further scenario methods show the behaviours below.
- `StateInput` (`state_input.dfy`) models `src/state/input.rs`. It is a class
  `Input` whose actions carry only `down`. It also holds a placeholder action
  that is returned for missing names. No operation writes the placeholder, so it
  is never held. `Action.IsDown` is the read accessor `Action::is_down`.
  `SetupScenario` replays the application's four `create_action_and_binding`
  calls (`src/state.rs:33-36`) and then feeds key events.

The model follows the code in two places where one might expect otherwise:

- Registering an existing name resets it to released. The code overwrites the
  entry with `HashMap::insert` (`src/input/mod.rs:28`). It does not keep the
  first registration. `ReregisterScenario` shows this.
- Two buttons bound to one name share a single `Action`. A release of either
  button releases it. There is no OR across the bound buttons
  (`src/input/mod.rs:49-62`). `SharedActionScenario` shows this.

Button codes (`winit::keyboard::KeyCode`, `winit::event::MouseButton`) are
modelled as integer codes. The scenarios take their buttons as parameters
rather than fixing particular codes.

## Model

| member | source | states |
|---|---|---|
| InputActions.Transition | src/input/mod.rs:57-62 | the new held state is the event's value; an equal value leaves the action untouched (deduplication); a real change sets exactly the edge matching the new state; edge/held agreement is preserved |
| InputActions.ClearEdges | src/input/mod.rs:93-96 | the held state is kept and no edge flag is set |
| InputActions.ActionEffect | src/input/mod.rs:56-67 | the set of names is unchanged, every other action is unchanged, an unknown name or repeated value changes nothing, a real change sets `is_down := v, just_down := v, just_up := !v`, and the per-action invariant holds for the whole table afterwards |
| InputActions.ClearedActions | src/input/mod.rs:92-96 | same names, every `is_down` kept, no edge flag left, and every action satisfies the invariant |
| InputActions.Input.constructor | src/input/mod.rs:18-23 | `Input::default()` has no bindings, no actions, zero pointer motion, and satisfies the invariant |
| InputActions.Input.RegisterAction | src/input/mod.rs:27-35 | the name is registered as all-false even if it existed before; bindings and pointer motion are unchanged; the invariant is preserved |
| InputActions.Input.BindButton | src/input/mod.rs:38-44 | the button now maps to the name, replacing any earlier binding; every other binding, the actions and the pointer motion are unchanged |
| InputActions.Input.UpdateButton | src/input/mod.rs:46-53 | an unbound button changes nothing; a bound one has the effect of `update_action` on its name; names, bindings and pointer motion never change; the invariant is preserved |
| InputActions.Input.UpdateAction | src/input/mod.rs:55-68 | the table becomes `ActionEffect` of the old one; an unregistered name or a repeated value changes nothing; bindings and pointer motion are unchanged; the invariant is preserved |
| InputActions.Input.GetAction | src/input/mod.rs:70-78 | returns the stored action for a registered name and an all-false action otherwise, reading only; under the invariant the result's edges agree with its held state |
| InputActions.Input.UpdateMouseDelta | src/input/mod.rs:80-87 | the pointer motion read by `get_mouse_delta` becomes the old one plus the event's delta; bindings and actions are unchanged |
| InputActions.Input.GetMouseDelta | src/input/mod.rs:85-87 | returns the pointer motion accumulated since the last reset, reading only; `UpdateMouseDelta` and `Update` state its value after each change |
| InputActions.Input.Update | src/input/mod.rs:89-99 | every action keeps its `is_down` and loses both edge flags, the set of names and the bindings are kept, the pointer motion is zero, and the invariant holds afterwards |
| InputActions.ReplayEndsInLastEvent | src/input/mod.rs:57-61 | after several events within one tick the action is held exactly when the last event was a press |
| InputActions.ReplayKeepsConsistent | src/input/mod.rs:11-16 | any sequence of events preserves the per-action invariant (`just_down ==> is_down`, `just_up ==> !is_down`) |
| InputActions.ReplayKeepsEdge | src/input/mod.rs:57-62 | once an edge flag is set within a tick, later events never leave the action without one |
| InputActions.ReplayEdgeIffChange | src/input/mod.rs:57-62 | starting a tick without edges, the action ends the tick with an edge exactly when some event differed from its initial held state |
| InputActions.RepeatedEventsCollapse | src/input/mod.rs:57-58 | any run of events with the same value has the effect of one event, so key repeat produces at most one edge |
| InputActions.FlatSetup | src/main.rs:76-98 | after the six registrations and bindings of the application, the forward key is bound to `move_forward`, and `move_forward` and `move_back` are registered and all-false |
| InputActions.ForwardScenario | src/main.rs:111-115 | after the application's full setup, a double press of the forward key gives `is_down` with `just_down`; after the tick reset only `is_down`; after release `just_up`; the back action stays all-false |
| InputActions.SharedActionScenario | src/input/mod.rs:49-62 | with two buttons bound to one name, pressing both and releasing one leaves the action released with `just_up` |
| InputActions.ReregisterScenario | src/input/mod.rs:27-35 | registering a held action again resets it to all-false |
| StateInput.Action.IsDown | src/state/input.rs:18-20 | an action is held exactly when it differs from the default, not-held action |
| StateInput.ButtonEffect | src/state/input.rs:56-70 | the set of names is unchanged; an unbound button, or one bound to a missing action, changes nothing; otherwise the bound action takes the new value and every other action is unchanged |
| StateInput.RepeatedButtonEvent | src/state/input.rs:59-63 | repeating a button event is a no-op |
| StateInput.LastButtonEventWins | src/state/input.rs:56-63 | two events on the same button leave the table as the second one alone would |
| StateInput.ReplayButtonEndsInLastEvent | src/state/input.rs:56-63 | after any non-empty run of events on a button bound to an existing action, that action holds the last event's value, and the names and every other action are unchanged |
| StateInput.Input.constructor | src/state/input.rs:23-30 | `Input::default()` has no bindings, no actions, and a placeholder that is not held |
| StateInput.Input.CreateAction | src/state/input.rs:34-40 | the name is present and not held, overwriting any earlier state; bindings and the placeholder are unchanged |
| StateInput.Input.CreateBinding | src/state/input.rs:42-47 | the button now maps to the name, replacing any earlier binding; every other binding, the actions and the placeholder are unchanged |
| StateInput.Input.CreateActionAndBinding | src/state/input.rs:49-54 | the combined effect of `create_action(key)` followed by `create_binding(button, key)` |
| StateInput.Input.UpdateButton | src/state/input.rs:56-70 | the table becomes `ButtonEffect` of the old one; bindings and the placeholder are never written |
| StateInput.Input.GetAction | src/state/input.rs:73-81 | returns the stored action for a present name and the placeholder otherwise; under the invariant a missing name reads as not held |
| StateInput.SetupScenario | src/state.rs:33-36 | after the application's four `create_action_and_binding` calls, a press of the forward key holds the action, a repeat keeps it held, the other action and a name never created read as not held, and a release lets go |

## Left out

- `src/gfx/mod.rs` (the renderer) is not part of this model. It is GPU I/O through wgpu. The only state it keeps itself is plain assignment: the index and instance counts copied from argument lengths (`src/gfx/mod.rs:304`, `:313`) and the surface width and height set by `resize` (`src/gfx/mod.rs:294-295`).
- `src/gfx/camera.rs` is not part of this model. It is `f32` trigonometry and glam matrix construction.
- `src/main.rs` and `src/state.rs` are windowing and event-loop glue. Their action setup and their key events appear only in the scenario methods. The camera controller in `src/main.rs` does `f32` arithmetic and is left out.
- Logging (`log::warn!`, `debug!`, `trace!`) is diagnostics only and is left out. The operations that log a warning are modelled as plain no-ops or overwrites.
- InputActions.Input.UpdateMouseDelta: the pointer motion is a pair of exact reals, an abstraction of `glam::Vec2`. `f32` rounding of the sum is not modelled.
- `FxHashMap` is modelled as a Dafny `map`. Hashing and iteration order are not modelled. The clearing loop in `update` visits the names in an arbitrary order, and its result does not depend on that order.
- `get_action` in `src/state/input.rs` returns a reference. The model returns the value, which nothing can write through.
