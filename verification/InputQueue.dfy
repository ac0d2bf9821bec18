/** The lossy input queue of a server window and the client that replays it.

    The server keeps at most 1024 events. A full queue is thrown away and marked, and the client
    then releases everything it holds. Keys and buttons must never stay pressed on the client
    after the user let them go.
  */
module InputQueue {
  const MAX_INPUT_EVENTS: nat := 1024

  /** How many events the client asks for at a time. */
  const POLLED: nat := 128

  datatype Input =
    | Motion(x: int, y: int)
    | Button(code: int, down: bool)
    | Axis(axis: int, amount: int)
    | Key(code: int, value: int)
    | Focus(gained: bool)

  datatype Event = Event(sequence: nat, input: Input)

  // ---------------------------------------------------------------------------
  // The queue
  // ---------------------------------------------------------------------------

  datatype Queue = Queue(events: seq<Event>, next: nat, overflowed: bool)

  predicate Coalesces(events: seq<Event>, input: Input) {
    input.Motion? && events != [] && events[|events| - 1].input.Motion?
  }

  function Recorded(q: Queue, input: Input): Queue {
    var n := |q.events|;
    if Coalesces(q.events, input) then
      q.(events := q.events[n - 1 := Event(q.events[n - 1].sequence, input)])
    else if n >= MAX_INPUT_EVENTS then Queue([Event(q.next, input)], q.next + 1, true)
    else Queue(q.events + [Event(q.next, input)], q.next + 1, q.overflowed)
  }

  function Min(a: nat, b: nat): nat {
    if a < b then a else b
  }

  function TakenEvents(q: Queue, max: nat): seq<Event> {
    if q.overflowed then [] else q.events[..Min(max, |q.events|)]
  }

  function AfterTake(q: Queue, max: nat): Queue {
    if q.overflowed then Queue([], q.next, false) else q.(events := q.events[Min(max, |q.events|)..])
  }

  class OwnWindow {
    var events: seq<Event>
    var next: nat
    var overflowed: bool

    constructor ()
      ensures State() == Queue([], 1, false)
    {
      events, next, overflowed := [], 1, false;
    }

    function State(): Queue
      reads this
    {
      Queue(events, next, overflowed)
    }

    method RecordInput(input: Input)
      modifies this
      ensures State() == Recorded(old(State()), input)
      ensures var n := |old(events)|;
              if input.Motion? && n > 0 && old(events)[n - 1].input.Motion? then
                && events == old(events)[..n - 1] + [Event(old(events)[n - 1].sequence, input)]
                && next == old(next) && overflowed == old(overflowed)
              else
                && events == (if n >= MAX_INPUT_EVENTS then [] else old(events)) + [Event(old(next), input)]
                && next == old(next) + 1 && overflowed == (old(overflowed) || n >= MAX_INPUT_EVENTS)
    {
      if input.Motion? && |events| > 0 && events[|events| - 1].input.Motion? {
        var last := events[|events| - 1];
        events := events[|events| - 1 := last.(input := last.input.(x := input.x, y := input.y))];
        return;
      }
      if |events| >= MAX_INPUT_EVENTS {
        events := [];
        overflowed := true;
      }
      events := events + [Event(next, input)];
      next := next + 1;
    }

    method TakeInputEvents(max: nat) returns (taken: seq<Event>, lost: bool)
      modifies this
      ensures taken == TakenEvents(old(State()), max) && lost == old(overflowed)
      ensures State() == AfterTake(old(State()), max)
      ensures next == old(next) && !overflowed
      ensures if lost then taken == [] && events == []
              else taken + events == old(events) && |taken| <= max && (|taken| < max ==> events == [])
    {
      if overflowed {
        events := [];
        overflowed := false;
        return [], true;
      }
      ghost var es := events;
      var count := Min(max, |events|);
      taken := [];
      for i := 0 to count
        invariant taken == es[..i] && events == es[i..] && next == old(next) && !overflowed
      {
        taken := taken + [events[0]];
        events := events[1..];
      }
      lost := false;
    }
  }

  // ---------------------------------------------------------------------------
  // The client's window
  // ---------------------------------------------------------------------------

  type Mask = nat

  /** Virtual keys by evdev code. Several codes may share one. */
  type KeyMap = map<int, nat>

  /** 0 when the code has no virtual key. */
  function VirtualKey(keys: KeyMap, code: int): nat {
    if code in keys then keys[code] else 0
  }

  function ButtonMask(code: int): Mask {
    if code == 0x110 then 1 else if code == 0x111 then 2 else if code == 0x112 then 4
    else if code == 0x113 then 8 else if code == 0x114 then 16 else 0
  }

  const MASKS: seq<Mask> := [1, 2, 4, 8, 16]
  const LEFT_ALT := 0xA4
  const RIGHT_ALT := 0xA5

  /** Two 16-bit halves. */
  datatype Position = Position(x: nat, y: nat)

  function Packed(x: int, y: int): Position {
    Position(x % 0x1_0000, y % 0x1_0000)
  }

  /** What the application is told, with the state each message is built from. Mouse moves are not kept. */
  datatype Message =
    | ButtonMessage(mask: Mask, down: bool, at: Position, buttons: set<Mask>, keys: seq<nat>)
    | WheelMessage(axis: int, amount: int, at: Position, buttons: set<Mask>, keys: seq<nat>)
    | KeyMessage(code: int, key: nat, value: int, alt: bool)
    | FocusMessage(gained: bool)

  datatype View = View(buttons: set<Mask>, keys: seq<nat>, at: Position, posted: seq<Message>)

  const NO_INPUT := View({}, [], Position(0, 0), [])

  function SetOf(keys: seq<nat>): set<nat> {
    set k | k in keys
  }

  predicate NoDuplicates(keys: seq<nat>) {
    forall i, j | 0 <= i < j < |keys| :: keys[i] != keys[j]
  }

  /** Without the first occurrence. */
  function Without(keys: seq<nat>, k: nat): seq<nat> {
    if keys == [] then [] else if keys[0] == k then keys[1..] else [keys[0]] + Without(keys[1..], k)
  }

  lemma {:induction false} WithoutExactly(keys: seq<nat>, k: nat)
    requires NoDuplicates(keys)
    ensures SetOf(Without(keys, k)) == SetOf(keys) - {k} && NoDuplicates(Without(keys, k))
  {
    if keys != [] {
      var rest := keys[1..];
      forall i | 0 <= i < |rest| ensures rest[i] != keys[0] { assert rest[i] == keys[i + 1]; }
      assert SetOf(keys) == {keys[0]} + SetOf(rest);
      if keys[0] != k {
        WithoutExactly(rest, k);
        var shorter := Without(rest, k);
        assert forall i | 0 <= i < |shorter| :: shorter[i] in SetOf(shorter);
        assert SetOf([keys[0]] + shorter) == {keys[0]} + SetOf(shorter);
      }
    }
  }

  predicate AltDown(keys: seq<nat>) {
    LEFT_ALT in keys || RIGHT_ALT in keys
  }

  function PressedKeys(keys: seq<nat>, key: nat, value: int): seq<nat> {
    if value != 0 && key !in keys then keys + [key]
    else if value == 0 && key in keys then Without(keys, key)
    else keys
  }

  function PressedButtons(buttons: set<Mask>, mask: Mask, down: bool): set<Mask> {
    if down then buttons + {mask} else buttons - {mask}
  }

  function Posted(v: View, input: Input, m: KeyMap): View {
    match input
    case Motion(x, y) => v.(at := Packed(x, y))
    case Button(code, down) =>
      var mask := ButtonMask(code);
      if mask == 0 then v
      else
        var buttons := PressedButtons(v.buttons, mask, down);
        v.(buttons := buttons, posted := v.posted + [ButtonMessage(mask, down, v.at, buttons, v.keys)])
    case Axis(axis, amount) => v.(posted := v.posted + [WheelMessage(axis, amount, v.at, v.buttons, v.keys)])
    case Key(code, value) =>
      var key := VirtualKey(m, code);
      if key == 0 then v
      else
        v.(keys := PressedKeys(v.keys, key, value),
           posted := v.posted + [KeyMessage(code, key, value, AltDown(v.keys))])
    case Focus(gained) => v.(posted := v.posted + [FocusMessage(gained)])
  }

  function ButtonsReleased(v: View, n: nat): seq<Message>
    requires n <= |MASKS|
  {
    if n == 0 then v.posted
    else
      ButtonsReleased(v, n - 1)
      + if MASKS[n - 1] in v.buttons then [ButtonMessage(MASKS[n - 1], false, v.at, {}, [])] else []
  }

  function KeysReleased(log: seq<Message>, keys: seq<nat>): seq<Message> {
    if keys == [] then log
    else
      var k := keys[|keys| - 1];
      KeysReleased(log, keys[..|keys| - 1]) + [KeyMessage(0, k, 0, k == LEFT_ALT || k == RIGHT_ALT)]
  }

  /** After an overflow everything held is released. */
  function Reset(v: View): View {
    View({}, [], v.at, KeysReleased(ButtonsReleased(v, |MASKS|), v.keys))
  }

  function Inputs(events: seq<Event>): seq<Input> {
    seq(|events|, i requires 0 <= i < |events| => events[i].input)
  }

  function Replay(v: View, inputs: seq<Input>, m: KeyMap): View {
    if inputs == [] then v else Posted(Replay(v, inputs[..|inputs| - 1], m), inputs[|inputs| - 1], m)
  }

  // ---------------------------------------------------------------------------
  // The same, field by field
  // ---------------------------------------------------------------------------

  /** The key is pressed or let go: it joins the end of the list, or its first occurrence leaves. */
  predicate KeyMoved(before: seq<nat>, after: seq<nat>, key: nat, value: int) {
    if value != 0 then after == if key in before then before else before + [key]
    else if key in before then
      exists i :: 0 <= i < |before| && before[i] == key && key !in before[..i] && after == before[..i] + before[i + 1..]
    else after == before
  }

  /** One event's change. The buttons are 0x110 to 0x114; other codes, and keys without a virtual key,
      change nothing. */
  predicate Posts(v: View, w: View, input: Input, m: KeyMap) {
    match input
    case Motion(x, y) => w == v.(at := w.at) && w.at.x == x % 0x1_0000 && w.at.y == y % 0x1_0000
    case Button(code, down) =>
      if 0x110 <= code < 0x115 then
        var mask := MASKS[code - 0x110];
        && w.keys == v.keys && w.at == v.at
        && w.buttons == (if down then v.buttons + {mask} else v.buttons - {mask})
        && w.posted == v.posted + [ButtonMessage(mask, down, v.at, w.buttons, v.keys)]
      else w == v
    case Axis(axis, amount) =>
      w == v.(posted := v.posted + [WheelMessage(axis, amount, v.at, v.buttons, v.keys)])
    case Key(code, value) =>
      if code in m && m[code] != 0 then
        && w.buttons == v.buttons && w.at == v.at && KeyMoved(v.keys, w.keys, m[code], value)
        && w.posted == v.posted + [KeyMessage(code, m[code], value, 0xA4 in v.keys || 0xA5 in v.keys)]
      else w == v
    case Focus(gained) => w == v.(posted := v.posted + [FocusMessage(gained)])
  }

  lemma {:induction false} WithoutFirst(keys: seq<nat>, k: nat) returns (i: nat)
    requires k in keys
    ensures i < |keys| && keys[i] == k && k !in keys[..i] && Without(keys, k) == keys[..i] + keys[i + 1..]
  {
    if keys[0] == k {
      i := 0;
    } else {
      var j := WithoutFirst(keys[1..], k);
      i := j + 1;
      assert keys[..i] == [keys[0]] + keys[1..][..j] && keys[i + 1..] == keys[1..][j + 1..];
    }
  }

  lemma PostedPosts(v: View, input: Input, m: KeyMap)
    ensures Posts(v, Posted(v, input, m), input, m)
  {
    match input
    case Key(code, value) =>
      if VirtualKey(m, code) in v.keys && value == 0 {
        var i := WithoutFirst(v.keys, VirtualKey(m, code));
      }
    case _ =>
  }

  /** Everything held is let go: first the buttons, from the lowest mask, then the keys in their order. */
  predicate LetsGo(v: View, w: View, buttons: seq<Message>, keys: seq<Message>) {
    && w.buttons == {} && w.keys == [] && w.at == v.at && w.posted == v.posted + buttons + keys
    && (forall i | 0 <= i < |buttons| :: buttons[i].ButtonMessage? && buttons[i].mask in v.buttons
          && buttons[i] == ButtonMessage(buttons[i].mask, false, v.at, {}, []))
    && (forall i, j | 0 <= i < j < |buttons| :: buttons[i].mask < buttons[j].mask)
    && (forall mask | mask in v.buttons && mask in {1, 2, 4, 8, 16} ::
          exists i :: 0 <= i < |buttons| && buttons[i].mask == mask)
    && |keys| == |v.keys|
    && forall i | 0 <= i < |keys| :: keys[i] == KeyMessage(0, v.keys[i], 0, v.keys[i] == 0xA4 || v.keys[i] == 0xA5)
  }

  lemma {:induction false} ButtonsLetGo(v: View, n: nat) returns (buttons: seq<Message>)
    requires n <= |MASKS|
    ensures ButtonsReleased(v, n) == v.posted + buttons && (n == 0 ==> buttons == [])
    ensures forall i | 0 <= i < |buttons| :: buttons[i].ButtonMessage? && buttons[i].mask in v.buttons
              && buttons[i] == ButtonMessage(buttons[i].mask, false, v.at, {}, [])
    ensures n > 0 ==> forall i | 0 <= i < |buttons| :: buttons[i].mask <= MASKS[n - 1]
    ensures forall i, j | 0 <= i < j < |buttons| :: buttons[i].mask < buttons[j].mask
    ensures forall k | 0 <= k < n && MASKS[k] in v.buttons :: exists i :: 0 <= i < |buttons| && buttons[i].mask == MASKS[k]
    decreases n
  {
    if n == 0 {
      buttons := [];
      assert v.posted + [] == v.posted;
    } else {
      var front := ButtonsLetGo(v, n - 1);
      var mask := MASKS[n - 1];
      assert n > 1 ==> MASKS[n - 2] < mask;
      if mask in v.buttons {
        buttons := front + [ButtonMessage(mask, false, v.at, {}, [])];
        assert buttons[|front|].mask == mask;
      } else {
        buttons := front;
        assert v.posted + front + [] == v.posted + front;
      }
      forall k | 0 <= k < n && MASKS[k] in v.buttons
        ensures exists i :: 0 <= i < |buttons| && buttons[i].mask == MASKS[k]
      {
        if k < n - 1 {
          var i :| 0 <= i < |front| && front[i].mask == MASKS[k];
          assert buttons[i].mask == MASKS[k];
        }
      }
    }
  }

  lemma {:induction false} KeysLetGo(log: seq<Message>, keys: seq<nat>) returns (messages: seq<Message>)
    ensures KeysReleased(log, keys) == log + messages && |messages| == |keys|
    ensures forall i | 0 <= i < |keys| :: messages[i] == KeyMessage(0, keys[i], 0, keys[i] == 0xA4 || keys[i] == 0xA5)
    decreases |keys|
  {
    if keys == [] {
      messages := [];
      assert log + [] == log;
    } else {
      var k := keys[|keys| - 1];
      var front := KeysLetGo(log, keys[..|keys| - 1]);
      messages := front + [KeyMessage(0, k, 0, k == LEFT_ALT || k == RIGHT_ALT)];
    }
  }

  lemma ResetLetsGo(v: View) returns (buttons: seq<Message>, keys: seq<Message>)
    ensures LetsGo(v, Reset(v), buttons, keys)
  {
    buttons := ButtonsLetGo(v, |MASKS|);
    keys := KeysLetGo(ButtonsReleased(v, |MASKS|), v.keys);
    assert MASKS[0] == 1 && MASKS[1] == 2 && MASKS[2] == 4 && MASKS[3] == 8 && MASKS[4] == 16;
  }

  /** The views between: one event after another. */
  predicate PostRun(views: seq<View>, events: seq<Event>, m: KeyMap) {
    |views| == |events| + 1 && forall i | 0 <= i < |events| :: Posts(views[i], views[i + 1], events[i].input, m)
  }

  lemma {:induction false} ReplayRuns(v: View, events: seq<Event>, m: KeyMap) returns (views: seq<View>)
    ensures PostRun(views, events, m) && views[0] == v && views[|events|] == Replay(v, Inputs(events), m)
    decreases |events|
  {
    hide Posts, Posted;
    if events == [] {
      views := [v];
    } else {
      var n := |events| - 1;
      var front := ReplayRuns(v, events[..n], m);
      assert Inputs(events)[..n] == Inputs(events[..n]);
      PostedPosts(front[n], events[n].input, m);
      views := front + [Posted(front[n], events[n].input, m)];
      forall i | 0 <= i < |events| ensures Posts(views[i], views[i + 1], events[i].input, m) {
        assert i < n ==> Posts(front[i], front[i + 1], events[..n][i].input, m);
      }
    }
  }

  class InputWindow {
    const virtualKeys: KeyMap
    var buttons: set<Mask>
    var keys: seq<nat>
    var at: Position
    var posted: seq<Message>

    constructor (virtualKeys: KeyMap)
      ensures this.virtualKeys == virtualKeys && State() == NO_INPUT
    {
      this.virtualKeys := virtualKeys;
      buttons, keys, at, posted := {}, [], Position(0, 0), [];
    }

    function State(): View
      reads this
    {
      View(buttons, keys, at, posted)
    }

    method PostWindowEvent(input: Input)
      modifies this
      ensures State() == Posted(old(State()), input, virtualKeys)
      ensures Posts(old(State()), State(), input, virtualKeys)
    {
      hide Posts;
      PostedPosts(State(), input, virtualKeys);
      match input
      case Motion(x, y) => at := Packed(x, y);
      case Button(code, down) =>
        var mask := ButtonMask(code);
        if mask != 0 {
          if down { buttons := buttons + {mask}; } else { buttons := buttons - {mask}; }
          posted := posted + [ButtonMessage(mask, down, at, buttons, keys)];
        }
      case Axis(axis, amount) => posted := posted + [WheelMessage(axis, amount, at, buttons, keys)];
      case Key(code, value) =>
        var key := VirtualKey(virtualKeys, code);
        if key != 0 {
          posted := posted + [KeyMessage(code, key, value, LEFT_ALT in keys || RIGHT_ALT in keys)];
          var found := key in keys;
          if value != 0 && !found { keys := keys + [key]; }
          if value == 0 && found { keys := Without(keys, key); }
        }
      case Focus(gained) => posted := posted + [FocusMessage(gained)];
    }

    method PollWindowEvents(events: seq<Event>, overflowed: bool)
      modifies this
      ensures State() == Replay(if overflowed then Reset(old(State())) else old(State()), Inputs(events), virtualKeys)
      ensures exists views ::
                && PostRun(views, events, virtualKeys) && views[|events|] == State()
                && if overflowed then exists buttons, keys :: LetsGo(old(State()), views[0], buttons, keys)
                   else views[0] == old(State())
    {
      hide Posts, LetsGo;
      ghost var views := ReplayRuns(if overflowed then Reset(State()) else State(), events, virtualKeys);
      ghost var _, _ := ResetLetsGo(State());
      if overflowed {
        for i := 0 to |MASKS|
          invariant State() == old(State()).(posted := ButtonsReleased(old(State()), i))
        {
          if MASKS[i] in buttons { posted := posted + [ButtonMessage(MASKS[i], false, at, {}, [])]; }
        }
        buttons := {};
        ghost var log := posted;
        for i := 0 to |keys|
          invariant keys == old(keys) && buttons == {} && at == old(at)
          invariant posted == KeysReleased(log, keys[..i])
        {
          assert keys[..i + 1][..i] == keys[..i];
          posted := posted + [KeyMessage(0, keys[i], 0, keys[i] == LEFT_ALT || keys[i] == RIGHT_ALT)];
        }
        assert keys[..|keys|] == keys;
        keys := [];
      }
      ghost var v := State();
      for i := 0 to |events|
        invariant State() == Replay(v, Inputs(events)[..i], virtualKeys)
      {
        PostWindowEvent(events[i].input);
        assert Inputs(events)[..i + 1][..i] == Inputs(events)[..i];
      }
      assert Inputs(events)[..|events|] == Inputs(events);
    }
  }

  // ---------------------------------------------------------------------------
  // What the application believes is held
  // ---------------------------------------------------------------------------

  function AppButtons(log: seq<Message>): set<Mask> {
    if log == [] then {}
    else
      var before, last := AppButtons(log[..|log| - 1]), log[|log| - 1];
      if last.ButtonMessage? then PressedButtons(before, last.mask, last.down) else before
  }

  function AppKeys(log: seq<Message>): set<nat> {
    if log == [] then {}
    else
      var before, last := AppKeys(log[..|log| - 1]), log[|log| - 1];
      if !last.KeyMessage? then before else if last.value != 0 then before + {last.key} else before - {last.key}
  }

  /** The client's own record is what its messages add up to. */
  predicate Consistent(v: View) {
    && AppButtons(v.posted) == v.buttons && v.buttons <= SetOf(MASKS)
    && AppKeys(v.posted) == SetOf(v.keys) && NoDuplicates(v.keys)
  }

  lemma AppStep(log: seq<Message>, message: Message)
    ensures var more := log + [message];
            && AppButtons(more) == (if message.ButtonMessage?
                                    then PressedButtons(AppButtons(log), message.mask, message.down)
                                    else AppButtons(log))
            && AppKeys(more) == (if !message.KeyMessage? then AppKeys(log)
                                 else if message.value != 0 then AppKeys(log) + {message.key}
                                 else AppKeys(log) - {message.key})
  {
    assert (log + [message])[..|log|] == log;
  }

  lemma KeysExactly(keys: seq<nat>, key: nat, value: int)
    requires NoDuplicates(keys)
    ensures NoDuplicates(PressedKeys(keys, key, value))
    ensures SetOf(PressedKeys(keys, key, value)) == if value != 0 then SetOf(keys) + {key} else SetOf(keys) - {key}
  {
    WithoutExactly(keys, key);
    if value != 0 && key !in keys {
      assert SetOf(keys + [key]) == SetOf(keys) + {key};
    }
  }

  lemma PostedConsistent(v: View, input: Input, m: KeyMap)
    requires Consistent(v)
    ensures Consistent(Posted(v, input, m))
  {
    var w := Posted(v, input, m);
    if |w.posted| > |v.posted| {
      AppStep(v.posted, w.posted[|v.posted|]);
    }
    if input.Key? {
      KeysExactly(v.keys, VirtualKey(m, input.code), input.value);
    }
    if input.Button? && ButtonMask(input.code) != 0 {
      MaskKnown(input.code);
    }
  }

  lemma MaskKnown(code: int)
    requires ButtonMask(code) != 0
    ensures ButtonMask(code) in SetOf(MASKS)
  {
    assert MASKS[0] == 1 && MASKS[1] == 2 && MASKS[2] == 4 && MASKS[3] == 8 && MASKS[4] == 16;
  }

  lemma {:induction false} ButtonsReleasedExactly(v: View, n: nat)
    requires n <= |MASKS| && AppButtons(v.posted) == v.buttons
    ensures AppButtons(ButtonsReleased(v, n)) == v.buttons - SetOf(MASKS[..n])
    ensures AppKeys(ButtonsReleased(v, n)) == AppKeys(v.posted)
    decreases n
  {
    if n > 0 {
      ButtonsReleasedExactly(v, n - 1);
      assert MASKS[..n] == MASKS[..n - 1] + [MASKS[n - 1]];
      assert SetOf(MASKS[..n]) == SetOf(MASKS[..n - 1]) + {MASKS[n - 1]};
      assert ButtonsReleased(v, n - 1) + [] == ButtonsReleased(v, n - 1);
      AppStep(ButtonsReleased(v, n - 1), ButtonMessage(MASKS[n - 1], false, v.at, {}, []));
    }
  }

  lemma {:induction false} KeysReleasedExactly(log: seq<Message>, keys: seq<nat>)
    ensures AppKeys(KeysReleased(log, keys)) == AppKeys(log) - SetOf(keys)
    ensures AppButtons(KeysReleased(log, keys)) == AppButtons(log)
    decreases |keys|
  {
    if keys != [] {
      var n := |keys| - 1;
      KeysReleasedExactly(log, keys[..n]);
      assert keys == keys[..n] + [keys[n]];
      AppStep(KeysReleased(log, keys[..n]), KeyMessage(0, keys[n], 0, keys[n] == LEFT_ALT || keys[n] == RIGHT_ALT));
    }
  }

  /** A reset releases exactly what the application believes is held. */
  lemma ResetReleasesAll(v: View)
    requires Consistent(v)
    ensures Consistent(Reset(v)) && AppButtons(Reset(v).posted) == {} && AppKeys(Reset(v).posted) == {}
  {
    ButtonsReleasedExactly(v, |MASKS|);
    assert MASKS[..|MASKS|] == MASKS;
    KeysReleasedExactly(ButtonsReleased(v, |MASKS|), v.keys);
  }

  lemma {:induction false} ReplayConsistent(v: View, inputs: seq<Input>, m: KeyMap)
    requires Consistent(v)
    ensures Consistent(Replay(v, inputs, m))
    decreases |inputs|
  {
    if inputs != [] {
      ReplayConsistent(v, inputs[..|inputs| - 1], m);
      PostedConsistent(Replay(v, inputs[..|inputs| - 1], m), inputs[|inputs| - 1], m);
    }
  }

  // ---------------------------------------------------------------------------
  // Runs
  // ---------------------------------------------------------------------------

  /** What the user really holds down. */
  datatype Source = ButtonSource(code: int) | KeySource(code: int)

  function Hold(held: set<Source>, input: Input): set<Source> {
    match input
    case Button(code, down) => if down then held + {ButtonSource(code)} else held - {ButtonSource(code)}
    case Key(code, value) => if value != 0 then held + {KeySource(code)} else held - {KeySource(code)}
    case _ => held
  }

  function ButtonsOf(held: set<Source>): set<Mask> {
    set s | s in held && s.ButtonSource? && ButtonMask(s.code) != 0 :: ButtonMask(s.code)
  }

  function KeysOf(held: set<Source>, m: KeyMap): set<nat> {
    set s | s in held && s.KeySource? && VirtualKey(m, s.code) != 0 :: VirtualKey(m, s.code)
  }

  /** The queue, the client and what the user did; `since` is what was typed after the last reset. */
  datatype System = System(
    queue: Queue,
    view: View,
    held: set<Source>,
    taken: seq<nat>,
    start: View,
    since: seq<Input>,
    lost: bool)

  datatype Step = Records(input: Input) | Polls

  const IDLE := System(Queue([], 1, false), NO_INPUT, {}, [], NO_INPUT, [], false)

  function Sequences(events: seq<Event>): seq<nat> {
    seq(|events|, i requires 0 <= i < |events| => events[i].sequence)
  }

  function Next(s: System, step: Step, m: KeyMap): System {
    match step
    case Records(input) =>
      var q := Recorded(s.queue, input);
      s.(queue := q, held := Hold(s.held, input), since := s.since + [input], lost := s.lost || q.overflowed)
    case Polls =>
      var events := TakenEvents(s.queue, POLLED);
      var view := Replay(if s.queue.overflowed then Reset(s.view) else s.view, Inputs(events), m);
      var t := s.(queue := AfterTake(s.queue, POLLED), view := view, taken := s.taken + Sequences(events));
      if s.queue.overflowed then t.(start := view, since := []) else t
  }

  function Run(steps: seq<Step>, m: KeyMap): System {
    if steps == [] then IDLE else Next(Run(steps[..|steps| - 1], m), steps[|steps| - 1], m)
  }

  /** The client once it has replayed what is queued. */
  function CaughtUp(s: System, m: KeyMap): View {
    if s.queue.overflowed then Reset(s.view) else Replay(s.view, Inputs(s.queue.events), m)
  }

  predicate Increasing(ns: seq<nat>, below: nat) {
    && (forall i, j | 0 <= i < j < |ns| :: ns[i] < ns[j])
    && forall i | 0 <= i < |ns| :: ns[i] < below
  }

  predicate HeldIn(v: View, held: set<Source>, m: KeyMap) {
    v.buttons <= ButtonsOf(held) && SetOf(v.keys) <= KeysOf(held, m)
  }

  predicate Inv(s: System, m: KeyMap) {
    && |s.queue.events| <= MAX_INPUT_EVENTS
    && Increasing(s.taken + Sequences(s.queue.events), s.queue.next)
    && Consistent(s.view) && Consistent(CaughtUp(s, m))
    && (!s.queue.overflowed ==> CaughtUp(s, m) == Replay(s.start, s.since, m))
    && (!s.lost ==> !s.queue.overflowed && s.start == NO_INPUT)
    && HeldIn(CaughtUp(s, m), s.held, m)
  }

  /** Dropping a superseded motion changes nothing the application is told. */
  lemma RecordedReplay(v: View, q: Queue, input: Input, m: KeyMap)
    requires Coalesces(q.events, input) || |q.events| < MAX_INPUT_EVENTS
    ensures Replay(v, Inputs(Recorded(q, input).events), m) == Posted(Replay(v, Inputs(q.events), m), input, m)
  {
    var before, after := Inputs(q.events), Inputs(Recorded(q, input).events);
    if Coalesces(q.events, input) {
      var n := |before| - 1;
      assert before[..n] == after[..n];
    } else {
      assert after[..|before|] == before;
    }
  }

  lemma HeldStep(v: View, input: Input, held: set<Source>, m: KeyMap)
    requires Consistent(v) && HeldIn(v, held, m)
    ensures HeldIn(Posted(v, input, m), Hold(held, input), m)
  {
    var after := Hold(held, input);
    match input
    case Button(code, down) =>
      if down { assert ButtonSource(code) in after; }
      forall s | s in held && s != ButtonSource(code) ensures s in after {}
    case Key(code, value) =>
      KeysExactly(v.keys, VirtualKey(m, code), value);
      if value != 0 { assert KeySource(code) in after; }
      forall s | s in held && s != KeySource(code) ensures s in after {}
    case _ =>
  }

  lemma SequencesStep(taken: seq<nat>, q: Queue, input: Input)
    requires Increasing(taken + Sequences(q.events), q.next)
    ensures Increasing(taken + Sequences(Recorded(q, input).events), Recorded(q, input).next)
  {
    var r := Recorded(q, input);
    if Coalesces(q.events, input) {
      assert Sequences(r.events) == Sequences(q.events);
    } else {
      var all := taken + Sequences(q.events);
      assert taken == all[..|taken|];
      if |q.events| < MAX_INPUT_EVENTS {
        assert taken + Sequences(r.events) == all + [q.next];
      } else {
        assert taken + Sequences(r.events) == taken + [q.next];
      }
    }
  }

  lemma {:induction false} ReplayAppend(v: View, a: seq<Input>, b: seq<Input>, m: KeyMap)
    ensures Replay(v, a + b, m) == Replay(Replay(v, a, m), b, m)
    decreases |b|
  {
    if b == [] {
      assert a + b == a;
    } else {
      ReplayAppend(v, a, b[..|b| - 1], m);
      assert (a + b)[..|a + b| - 1] == a + b[..|b| - 1];
    }
  }

  lemma RecordsKeeps(s: System, input: Input, m: KeyMap)
    requires Inv(s, m)
    ensures Inv(Next(s, Records(input), m), m)
  {
    var t := Next(s, Records(input), m);
    SequencesStep(s.taken, s.queue, input);
    ResetReleasesAll(s.view);
    if !t.queue.overflowed {
      RecordedReplay(s.view, s.queue, input, m);
      PostedConsistent(CaughtUp(s, m), input, m);
      HeldStep(CaughtUp(s, m), input, s.held, m);
      assert t.since[..|t.since| - 1] == s.since;
    }
  }

  /** A poll brings the client nearer to where it will be, and nowhere else. */
  lemma PollKeepsCaughtUp(s: System, m: KeyMap)
    ensures CaughtUp(Next(s, Polls, m), m) == CaughtUp(s, m)
  {
    var n := Min(POLLED, |s.queue.events|);
    if !s.queue.overflowed {
      var all := Inputs(s.queue.events);
      ReplayAppend(s.view, all[..n], all[n..], m);
      assert all == all[..n] + all[n..];
      assert Inputs(s.queue.events[..n]) == all[..n] && Inputs(s.queue.events[n..]) == all[n..];
    }
  }

  lemma PollsKeeps(s: System, m: KeyMap)
    requires Inv(s, m)
    ensures Inv(Next(s, Polls, m), m)
  {
    var t := Next(s, Polls, m);
    PollKeepsCaughtUp(s, m);
    ResetReleasesAll(s.view);
    var all := s.taken + Sequences(s.queue.events);
    if s.queue.overflowed {
      assert t.taken + Sequences(t.queue.events) == all[..|s.taken|];
    } else {
      var n := Min(POLLED, |s.queue.events|);
      assert t.taken + Sequences(t.queue.events) == all;
      ReplayConsistent(s.view, Inputs(s.queue.events[..n]), m);
    }
  }

  /** Every run of typing and polling, in any order. */
  lemma {:induction false} RunKeeps(steps: seq<Step>, m: KeyMap)
    ensures Inv(Run(steps, m), m)
    decreases |steps|
  {
    if steps != [] {
      var n := |steps| - 1;
      RunKeeps(steps[..n], m);
      match steps[n]
      case Records(input) => RecordsKeeps(Run(steps[..n], m), input, m);
      case Polls => PollsKeeps(Run(steps[..n], m), m);
    }
  }

  /** The queue is bounded, and sequence numbers only grow. */
  lemma SequencesGrow(steps: seq<Step>, m: KeyMap, i: nat, j: nat)
    requires i < j < |Run(steps, m).taken|
    ensures Run(steps, m).taken[i] < Run(steps, m).taken[j] && |Run(steps, m).queue.events| <= MAX_INPUT_EVENTS
  {
    var s := Run(steps, m);
    RunKeeps(steps, m);
    var all := s.taken + Sequences(s.queue.events);
    assert all[i] == s.taken[i] && all[j] == s.taken[j];
  }

  function PollAll(s: System, n: nat, m: KeyMap): System
    decreases n
  {
    if n == 0 then s else PollAll(Next(s, Polls, m), n - 1, m)
  }

  /** Polling with nobody typing catches up. */
  lemma {:induction false} PollingCatchesUp(s: System, n: nat, m: KeyMap)
    requires n >= 1 && |s.queue.events| <= n * POLLED
    ensures PollAll(s, n, m).view == CaughtUp(s, m) && PollAll(s, n, m).held == s.held
    ensures PollAll(s, n, m).queue.events == [] && !PollAll(s, n, m).queue.overflowed
    decreases n
  {
    var t := Next(s, Polls, m);
    PollKeepsCaughtUp(s, m);
    if n > 1 {
      PollingCatchesUp(t, n - 1, m);
    }
  }

  /** After any run, what the application still believes to be held is really held: no release gets lost. */
  lemma NothingStuck(steps: seq<Step>, m: KeyMap)
    ensures var s := PollAll(Run(steps, m), 8, m);
            AppButtons(s.view.posted) <= ButtonsOf(s.held) && AppKeys(s.view.posted) <= KeysOf(s.held, m)
  {
    RunKeeps(steps, m);
    PollingCatchesUp(Run(steps, m), 8, m);
  }

  /** What was typed in a run. */
  function Typed(steps: seq<Step>): seq<Input> {
    if steps == [] then []
    else
      var front, last := Typed(steps[..|steps| - 1]), steps[|steps| - 1];
      if last.Records? then front + [last.input] else front
  }

  lemma {:induction false} NothingDropped(steps: seq<Step>, m: KeyMap)
    requires !Run(steps, m).lost
    ensures Run(steps, m).since == Typed(steps)
    decreases |steps|
  {
    if steps != [] {
      NothingDropped(steps[..|steps| - 1], m);
      RunKeeps(steps[..|steps| - 1], m);
    }
  }

  /** Unless the queue ran over, the application is told what it would be told without a queue. */
  lemma ReplaysEverything(steps: seq<Step>, m: KeyMap)
    requires !Run(steps, m).lost
    ensures PollAll(Run(steps, m), 8, m).view == Replay(NO_INPUT, Typed(steps), m)
  {
    RunKeeps(steps, m);
    NothingDropped(steps, m);
    PollingCatchesUp(Run(steps, m), 8, m);
  }

  // ---------------------------------------------------------------------------
  // When nothing is lost, is everything held also believed held?
  // ---------------------------------------------------------------------------

  predicate OneCodePerKey(m: KeyMap) {
    forall c, d | c in m && d in m && m[c] == m[d] != 0 :: c == d
  }

  predicate HeldExactly(v: View, held: set<Source>, m: KeyMap) {
    v.buttons == ButtonsOf(held) && SetOf(v.keys) == KeysOf(held, m)
  }

  function HoldAll(held: set<Source>, inputs: seq<Input>): set<Source> {
    if inputs == [] then held else Hold(HoldAll(held, inputs[..|inputs| - 1]), inputs[|inputs| - 1])
  }

  lemma ExactStep(v: View, input: Input, held: set<Source>, m: KeyMap)
    requires OneCodePerKey(m) && Consistent(v) && HeldExactly(v, held, m)
    ensures HeldExactly(Posted(v, input, m), Hold(held, input), m)
  {
    HeldStep(v, input, held, m);
    if input.Key? {
      KeysExactly(v.keys, VirtualKey(m, input.code), input.value);
    }
  }

  /** With one code for each virtual key, the two agree after every input. */
  lemma {:induction false} ReplayHeldExactly(inputs: seq<Input>, m: KeyMap)
    requires OneCodePerKey(m)
    ensures HeldExactly(Replay(NO_INPUT, inputs, m), HoldAll({}, inputs), m)
    decreases |inputs|
  {
    if inputs != [] {
      var n := |inputs| - 1;
      ReplayHeldExactly(inputs[..n], m);
      ReplayConsistent(NO_INPUT, inputs[..n], m);
      ExactStep(Replay(NO_INPUT, inputs[..n], m), inputs[n], HoldAll({}, inputs[..n]), m);
    }
  }

  /** With a shared virtual key some typing tells them apart: press both codes and release one. */
  lemma SharedKeyReleases(m: KeyMap, c: int, d: int)
    requires c in m && d in m && m[c] == m[d] != 0 && c != d
    ensures var inputs := [Key(c, 1), Key(d, 1), Key(d, 0)];
            !HeldExactly(Replay(NO_INPUT, inputs, m), HoldAll({}, inputs), m)
  {
    var a, b, inputs := [Key(c, 1)], [Key(c, 1), Key(d, 1)], [Key(c, 1), Key(d, 1), Key(d, 0)];
    assert a[..0] == [] && b[..1] == a && inputs[..2] == b;
    assert HoldAll({}, a) == {KeySource(c)};
    assert HoldAll({}, b) == {KeySource(c), KeySource(d)};
    assert HoldAll({}, inputs) == {KeySource(c)};
    assert Replay(NO_INPUT, a, m).keys == [m[c]];
    assert Replay(NO_INPUT, b, m).keys == [m[c]];
    assert Replay(NO_INPUT, inputs, m).keys == [];
    assert m[c] in KeysOf(HoldAll({}, inputs), m);
  }

  /** The application knows exactly what is held, for every typing, if and only if no two codes share a key. */
  lemma HeldExactlyWhen(m: KeyMap)
    ensures OneCodePerKey(m) <==> forall inputs :: HeldExactly(Replay(NO_INPUT, inputs, m), HoldAll({}, inputs), m)
  {
    if OneCodePerKey(m) {
      forall inputs ensures HeldExactly(Replay(NO_INPUT, inputs, m), HoldAll({}, inputs), m) {
        ReplayHeldExactly(inputs, m);
      }
    } else {
      var c, d :| c in m && d in m && m[c] == m[d] != 0 && c != d;
      SharedKeyReleases(m, c, d);
    }
  }
}
