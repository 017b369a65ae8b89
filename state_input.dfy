/**
 * The simpler input layer of the state-machine prototype
 * (src/state/input.rs): keyboard buttons are bound to named actions, and an
 * action records only whether it is held.
 */
module StateInput {

  /** A physical button; this prototype knows keyboard keys only. */
  datatype Button = Key(code: int)

  /** The state of one named action. */
  datatype Action = Action(down: bool) {
    /** Held exactly when the action differs from its default. */
    function IsDown(): (r: bool)
      ensures r <==> this != Up
    {
      down
    }
  }

  /** `Action::default()`: not held. */
  const Up := Action(false)

  type Actions = map<string, Action>

  /**
   * The action table after the press or release `down` of `button`: the one
   * action the button is bound to, if that action exists, takes the new value.
   */
  function ButtonEffect(bindings: map<Button, string>, actions: Actions, button: Button, down: bool): (r: Actions)
    ensures r.Keys == actions.Keys
    ensures button !in bindings || bindings[button] !in actions ==> r == actions
    ensures button in bindings && bindings[button] in actions ==>
              r[bindings[button]].IsDown() == down &&
              forall k :: k in actions && k != bindings[button] ==> r[k] == actions[k]
  {
    if button in bindings && bindings[button] in actions then
      var key := bindings[button];
      if actions[key].down != down then actions[key := Action(down)] else actions
    else
      actions
  }

  /** Repeating a button event is a no-op: the second call finds the value already set. */
  lemma RepeatedButtonEvent(bindings: map<Button, string>, actions: Actions, button: Button, down: bool)
    ensures var once := ButtonEffect(bindings, actions, button, down);
            ButtonEffect(bindings, once, button, down) == once
  {
  }

  /**
   * Two events on the same button leave the action table as the second
   * event alone would, from the original table.
   */
  lemma LastButtonEventWins(bindings: map<Button, string>, actions: Actions, button: Button, d1: bool, d2: bool)
    ensures ButtonEffect(bindings, ButtonEffect(bindings, actions, button, d1), button, d2)
            == ButtonEffect(bindings, actions, button, d2)
  {
  }

  /** The action table after the events `events` on `button`, in order. */
  function ReplayButton(bindings: map<Button, string>, actions: Actions, button: Button, events: seq<bool>): (r: Actions)
    decreases |events|
  {
    if events == [] then actions
    else ReplayButton(bindings, ButtonEffect(bindings, actions, button, events[0]), button, events[1..])
  }

  /**
   * After any non-empty run of events on a button bound to an existing
   * action, that action holds the value of the last event, and the names and
   * every other action are as before.
   */
  lemma {:induction false} ReplayButtonEndsInLastEvent(
    bindings: map<Button, string>, actions: Actions, button: Button, events: seq<bool>)
    requires events != []
    requires button in bindings && bindings[button] in actions
    ensures var r := ReplayButton(bindings, actions, button, events);
            r.Keys == actions.Keys &&
            r[bindings[button]].IsDown() == events[|events| - 1] &&
            forall k :: k in actions && k != bindings[button] ==> r[k] == actions[k]
    decreases |events|
  {
    if |events| > 1 {
      ReplayButtonEndsInLastEvent(
        bindings, ButtonEffect(bindings, actions, button, events[0]), button, events[1..]);
    }
  }

  /** The input state of this prototype. */
  class Input {
    var bindings: map<Button, string>
    var actions: Actions
    /** Returned for names that do not exist; no operation writes it. */
    var dummyAction: Action

    /** The placeholder action is never held. */
    ghost predicate Valid()
      reads this
    {
      !dummyAction.IsDown()
    }

    /** `Input::default()`. */
    constructor ()
      ensures bindings == map[] && actions == map[] && dummyAction == Up
      ensures Valid()
    {
      bindings := map[];
      actions := map[];
      dummyAction := Up;
    }

    /** Creates `key` as not held, replacing any state it already had. */
    method CreateAction(key: string)
      modifies this
      ensures actions == old(actions)[key := Up]
      ensures !GetAction(key).IsDown()
      ensures bindings == old(bindings) && dummyAction == old(dummyAction)
    {
      actions := actions[key := Up];
    }

    /** Binds `button` to `key`; each button is bound to at most one action, the last one given. */
    method CreateBinding(button: Button, key: string)
      modifies this
      ensures bindings == old(bindings)[button := key]
      ensures bindings[button] == key
      ensures forall b :: b in old(bindings) && b != button ==> bindings[b] == old(bindings)[b]
      ensures actions == old(actions) && dummyAction == old(dummyAction)
    {
      bindings := bindings[button := key];
    }

    /** `CreateAction(key)` followed by `CreateBinding(button, key)`. */
    method CreateActionAndBinding(key: string, button: Button)
      modifies this
      ensures actions == old(actions)[key := Up]
      ensures bindings == old(bindings)[button := key]
      ensures dummyAction == old(dummyAction)
    {
      CreateAction(key);
      CreateBinding(button, key);
    }

    /** Feeds a press or release of `button` to its action; repeated values are ignored. */
    method UpdateButton(button: Button, down: bool)
      modifies this
      ensures actions == ButtonEffect(old(bindings), old(actions), button, down)
      ensures bindings == old(bindings) && dummyAction == old(dummyAction)
    {
      if button in bindings {
        var key := bindings[button];
        if key in actions {
          if actions[key].down != down {
            actions := actions[key := Action(down)];
          }
        }
      }
    }

    /** The action named `key`, or the placeholder when there is none. */
    function GetAction(key: string): (a: Action)
      reads this
      ensures key in actions ==> a == actions[key]
      ensures key !in actions ==> a == dummyAction
      ensures Valid() && key !in actions ==> !a.IsDown()
    {
      if key in actions then actions[key] else dummyAction
    }
  }

  /**
   * The setup of the state-machine application (four actions, each created
   * together with its binding): the forward action follows its key, a
   * repeated press changes nothing, and the other actions and a name never
   * created read as not held.
   */
  method SetupScenario(w: Button, s: Button, a: Button, d: Button)
    returns (forward: bool, repeated: bool, back: bool, missing: bool, released: bool)
    requires w != s && w != a && w != d
    ensures forward && repeated && !back && !missing && !released
  {
    var input := new Input();
    input.CreateActionAndBinding("move_forward", w);
    input.CreateActionAndBinding("move_back", s);
    input.CreateActionAndBinding("move_left", a);
    input.CreateActionAndBinding("move_right", d);
    input.UpdateButton(w, true);
    forward := input.GetAction("move_forward").IsDown();
    input.UpdateButton(w, true);
    repeated := input.GetAction("move_forward").IsDown();
    back := input.GetAction("move_back").IsDown();
    missing := input.GetAction("jump").IsDown();
    input.UpdateButton(w, false);
    released := input.GetAction("move_forward").IsDown();
  }
}
