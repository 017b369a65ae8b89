/**
 * The edge-detecting input-action layer of the flat prototype
 * (src/input/mod.rs): physical buttons are bound to named actions, and each
 * action tracks whether it is held and whether it went down or up during
 * the current tick.
 */
module InputActions {

  /** A physical button: a keyboard key or a pointer button, by its code. */
  datatype Button = Key(code: int) | Mouse(code: int)

  /** The state of one named action. */
  datatype Action = Action(isDown: bool, justDown: bool, justUp: bool) {

    /** The edge flags agree with the held state; so at most one of them is set. */
    predicate Consistent() {
      (justDown ==> isDown) && (justUp ==> !isDown)
    }

    /** The action changed state during the current tick. */
    predicate HasEdge() {
      justDown || justUp
    }
  }

  /** `Action::default()`: released, with no edge. */
  const Released := Action(false, false, false)

  /** Accumulated pointer motion, with exact arithmetic. */
  datatype Vec2 = Vec2(x: real, y: real) {
    function Add(other: Vec2): (r: Vec2) {
      Vec2(x + other.x, y + other.y)
    }
  }

  const Zero := Vec2(0.0, 0.0)

  type Actions = map<string, Action>

  ghost predicate AllConsistent(actions: Actions) {
    forall key :: key in actions ==> actions[key].Consistent()
  }

  /** What `update_action` does to the stored action when it receives `isDown`. */
  function Transition(a: Action, isDown: bool): (r: Action)
    ensures r.isDown == isDown
    ensures a.isDown == isDown ==> r == a
    ensures a.isDown != isDown ==> r.Consistent() && r.HasEdge()
    ensures a.Consistent() ==> r.Consistent()
  {
    if a.isDown == isDown then a else Action(isDown, isDown, !isDown)
  }

  /** What `update` does to one stored action. */
  function ClearEdges(a: Action): (r: Action)
    ensures r.isDown == a.isDown && !r.HasEdge() && r.Consistent()
  {
    Action(a.isDown, false, false)
  }

  /** The action table after `update_action(key, isDown)`. */
  function ActionEffect(actions: Actions, key: string, isDown: bool): (r: Actions)
    ensures r.Keys == actions.Keys
    ensures forall k :: k in actions && k != key ==> r[k] == actions[k]
    ensures key in actions ==> r[key].isDown == isDown
    ensures key !in actions || actions[key].isDown == isDown ==> r == actions
    ensures key in actions && actions[key].isDown != isDown ==>
              r[key] == Action(isDown, isDown, !isDown)
    ensures AllConsistent(actions) ==> AllConsistent(r)
  {
    if key in actions then actions[key := Transition(actions[key], isDown)] else actions
  }

  /** The action table after `update`. */
  function ClearedActions(actions: Actions): (r: Actions)
    ensures r.Keys == actions.Keys
    ensures forall k :: k in r ==> r[k].isDown == actions[k].isDown && !r[k].HasEdge()
    ensures AllConsistent(r)
  {
    map k | k in actions :: ClearEdges(actions[k])
  }

  /** The input state: bindings, actions and the pointer motion of the current tick. */
  class Input {
    var bindings: map<Button, string>
    var actions: Actions
    var mouseDelta: Vec2

    /** Every stored action has edge flags that agree with its held state. */
    ghost predicate Valid()
      reads this
    {
      AllConsistent(actions)
    }

    /** `Input::default()`. */
    constructor ()
      ensures bindings == map[] && actions == map[] && mouseDelta == Zero
      ensures Valid()
    {
      bindings := map[];
      actions := map[];
      mouseDelta := Zero;
    }

    /** Registers `key` as released, replacing any state it already had. */
    method RegisterAction(key: string)
      modifies this
      ensures actions == old(actions)[key := Released]
      ensures GetAction(key) == Released
      ensures bindings == old(bindings) && mouseDelta == old(mouseDelta)
      ensures old(Valid()) ==> Valid()
    {
      actions := actions[key := Released];
    }

    /** Binds `button` to `key`; a previous binding of `button` is replaced. */
    method BindButton(button: Button, key: string)
      modifies this
      ensures bindings == old(bindings)[button := key]
      ensures bindings[button] == key
      ensures forall b :: b in old(bindings) && b != button ==> bindings[b] == old(bindings)[b]
      ensures actions == old(actions) && mouseDelta == old(mouseDelta)
    {
      bindings := bindings[button := key];
    }

    /** Feeds a press or release of `button` to the action it is bound to, if any. */
    method UpdateButton(button: Button, isDown: bool)
      modifies this
      ensures button !in old(bindings) ==> actions == old(actions)
      ensures button in old(bindings) ==>
                actions == ActionEffect(old(actions), old(bindings)[button], isDown)
      ensures actions.Keys == old(actions).Keys
      ensures bindings == old(bindings) && mouseDelta == old(mouseDelta)
      ensures old(Valid()) ==> Valid()
    {
      if button in bindings {
        UpdateAction(bindings[button], isDown);
      }
    }

    /** Feeds a press or release to the action named `key`; an unknown name changes nothing. */
    method UpdateAction(key: string, isDown: bool)
      modifies this
      ensures actions == ActionEffect(old(actions), key, isDown)
      ensures key !in old(actions) ==> actions == old(actions)
      ensures key in old(actions) && old(actions)[key].isDown == isDown ==> actions == old(actions)
      ensures bindings == old(bindings) && mouseDelta == old(mouseDelta)
      ensures old(Valid()) ==> Valid()
    {
      if key in actions {
        var action := actions[key];
        if action.isDown != isDown {
          actions := actions[key := Action(isDown, isDown, !isDown)];
        }
      }
    }

    /** The state of `key`, or a released action when `key` is not registered. */
    function GetAction(key: string): (a: Action)
      reads this
      ensures key in actions ==> a == actions[key]
      ensures key !in actions ==> a == Released
      ensures Valid() ==> a.Consistent()
    {
      if key in actions then actions[key] else Released
    }

    /** Adds one motion event to the pointer motion of the current tick. */
    method UpdateMouseDelta(delta: Vec2)
      modifies this
      ensures GetMouseDelta() == old(GetMouseDelta()).Add(delta)
      ensures bindings == old(bindings) && actions == old(actions)
    {
      mouseDelta := mouseDelta.Add(delta);
    }

    /** The pointer motion accumulated since the last `Update`. */
    function GetMouseDelta(): (d: Vec2)
      reads this
      ensures d == mouseDelta
    {
      mouseDelta
    }

    /** Ends a tick: clears every edge flag and the pointer motion. */
    method Update()
      modifies this
      ensures actions == ClearedActions(old(actions))
      ensures forall k :: k in actions ==> GetAction(k).isDown == old(GetAction(k)).isDown
      ensures forall k :: !GetAction(k).HasEdge()
      ensures GetMouseDelta() == Zero
      ensures bindings == old(bindings)
      ensures Valid()
    {
      var pending := actions.Keys;
      while pending != {}
        invariant pending <= actions.Keys == old(actions).Keys
        invariant forall k :: k in pending ==> actions[k] == old(actions)[k]
        invariant forall k :: k in actions && k !in pending ==> actions[k] == ClearEdges(old(actions)[k])
        invariant bindings == old(bindings)
        decreases pending
      {
        var k :| k in pending;
        actions := actions[k := ClearEdges(actions[k])];
        pending := pending - {k};
      }
      mouseDelta := Zero;
    }
  }

  // ---------------------------------------------------------------------------
  // Several events for one action within a single tick.

  /** The action after receiving `events` in order, with no reset in between. */
  function Replay(a: Action, events: seq<bool>): (r: Action)
    decreases |events|
  {
    if events == [] then a else Replay(Transition(a, events[0]), events[1..])
  }

  /** The held state is the value of the last event. */
  lemma {:induction false} ReplayEndsInLastEvent(a: Action, events: seq<bool>)
    requires events != []
    ensures Replay(a, events).isDown == events[|events| - 1]
    decreases |events|
  {
    if |events| > 1 {
      ReplayEndsInLastEvent(Transition(a, events[0]), events[1..]);
    }
  }

  /** Any number of events keeps the edge flags in agreement with the held state. */
  lemma {:induction false} ReplayKeepsConsistent(a: Action, events: seq<bool>)
    requires a.Consistent()
    ensures Replay(a, events).Consistent()
    decreases |events|
  {
    if events != [] {
      ReplayKeepsConsistent(Transition(a, events[0]), events[1..]);
    }
  }

  /** Within a tick, an edge once set is never lost (only `update` clears it). */
  lemma {:induction false} ReplayKeepsEdge(a: Action, events: seq<bool>)
    requires a.HasEdge()
    ensures Replay(a, events).HasEdge()
    decreases |events|
  {
    if events != [] {
      ReplayKeepsEdge(Transition(a, events[0]), events[1..]);
    }
  }

  /**
   * Starting a tick without edges, the action ends the tick with an edge
   * exactly when some event of the tick differed from its initial state.
   */
  lemma {:induction false} ReplayEdgeIffChange(a: Action, events: seq<bool>)
    requires !a.HasEdge()
    ensures Replay(a, events).HasEdge() <==> exists i :: 0 <= i < |events| && events[i] != a.isDown
  {
    if events != [] {
      var rest := events[1..];
      if events[0] == a.isDown {
        ReplayEdgeIffChange(a, rest);
        if exists i :: 0 <= i < |events| && events[i] != a.isDown {
          var i :| 0 <= i < |events| && events[i] != a.isDown;
          assert rest[i - 1] != a.isDown;
        }
        if exists j :: 0 <= j < |rest| && rest[j] != a.isDown {
          var j :| 0 <= j < |rest| && rest[j] != a.isDown;
          assert events[j + 1] != a.isDown;
        }
      } else {
        ReplayKeepsEdge(Transition(a, events[0]), rest);
      }
    }
  }

  /** Repeated events with the same value act as one: key repeat adds no edge. */
  lemma {:induction false} RepeatedEventsCollapse(a: Action, v: bool, events: seq<bool>)
    requires events != []
    requires forall i :: 0 <= i < |events| ==> events[i] == v
    ensures Replay(a, events) == Transition(a, v)
    decreases |events|
  {
    if |events| > 1 {
      RepeatedEventsCollapse(Transition(a, events[0]), v, events[1..]);
    }
  }

  // ---------------------------------------------------------------------------
  // Scenarios over the class.

  /**
   * The setup of the flat application: six actions, each registered and
   * bound to its button.
   */
  method FlatSetup(w: Button, s: Button, a: Button, d: Button, shift: Button, left: Button)
    returns (input: Input)
    requires w != s && w != a && w != d && w != shift && w != left
    ensures fresh(input)
    ensures w in input.bindings && input.bindings[w] == "move_forward"
    ensures "move_forward" in input.actions && input.actions["move_forward"] == Released
    ensures "move_back" in input.actions && input.actions["move_back"] == Released
  {
    input := new Input();
    input.RegisterAction("move_forward");
    input.BindButton(w, "move_forward");
    input.RegisterAction("move_back");
    input.BindButton(s, "move_back");
    input.RegisterAction("move_left");
    input.BindButton(a, "move_left");
    input.RegisterAction("move_right");
    input.BindButton(d, "move_right");
    input.RegisterAction("run");
    input.BindButton(shift, "run");
    input.RegisterAction("use");
    input.BindButton(left, "use");
  }

  /**
   * After the setup of the flat application: pressing the forward key twice,
   * ending the tick, then releasing it.
   */
  method ForwardScenario(w: Button, s: Button, a: Button, d: Button, shift: Button, left: Button)
    returns (pressed: Action, held: Action, released: Action, back: Action)
    requires w != s && w != a && w != d && w != shift && w != left
    ensures pressed == Action(true, true, false)
    ensures held == Action(true, false, false)
    ensures released == Action(false, false, true)
    ensures back == Released
  {
    var input := FlatSetup(w, s, a, d, shift, left);
    input.UpdateButton(w, true);
    input.UpdateButton(w, true);
    pressed := input.GetAction("move_forward");
    input.Update();
    held := input.GetAction("move_forward");
    input.UpdateButton(w, false);
    released := input.GetAction("move_forward");
    back := input.GetAction("move_back");
  }

  /**
   * Two buttons bound to one name share one action: releasing either one
   * releases the action although the other is still held.
   */
  method SharedActionScenario(b1: Button, b2: Button) returns (a: Action)
    requires b1 != b2
    ensures !a.isDown && a.justUp
  {
    var input := new Input();
    input.RegisterAction("use");
    input.BindButton(b1, "use");
    input.BindButton(b2, "use");
    input.UpdateButton(b1, true);
    input.UpdateButton(b2, true);
    input.UpdateButton(b1, false);
    a := input.GetAction("use");
  }

  /** Registering an existing name resets it, even while it is held. */
  method ReregisterScenario(b: Button) returns (before: Action, after: Action)
    ensures before.isDown
    ensures after == Released
  {
    var input := new Input();
    input.RegisterAction("run");
    input.BindButton(b, "run");
    input.UpdateButton(b, true);
    before := input.GetAction("run");
    input.RegisterAction("run");
    after := input.GetAction("run");
  }
}
