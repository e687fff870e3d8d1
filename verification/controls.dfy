/** The camera's input state: which movement keys are held, whether the right
    mouse button is down, and the mouse motion accumulated since the last reset. */
module Controls {

  const FORWARD_SCANCODE: nat := 17
  const BACKWARD_SCANCODE: nat := 31
  const RIGHT_SCANCODE: nat := 32
  const LEFT_SCANCODE: nat := 30
  const UP_SCANCODE: nat := 57
  const DOWN_SCANCODE: nat := 29

  datatype Controls = Controls(
    goForward: bool,
    goBackward: bool,
    strafeRight: bool,
    strafeLeft: bool,
    goUp: bool,
    goDown: bool,
    lookAround: bool,
    cursorDelta: (real, real))

  datatype MouseButton = LeftButton | RightButton | MiddleButton | OtherButton(id: nat)

  /** The events the controls react to; everything else is `OtherEvent`. */
  datatype Event =
    | KeyboardInput(scancode: nat, pressed: bool)
    | MouseInput(button: MouseButton, pressed: bool)
    | MouseMotion(dx: real, dy: real)
    | OtherEvent

  /** The seven flags, named. */
  datatype Flag = Forward | Backward | Right | Left | Up | Down | Look

  function Get(c: Controls, f: Flag): bool {
    match f
    case Forward => c.goForward
    case Backward => c.goBackward
    case Right => c.strafeRight
    case Left => c.strafeLeft
    case Up => c.goUp
    case Down => c.goDown
    case Look => c.lookAround
  }

  /** The key bound to each movement flag; looking around has no key. */
  function KeyOf(f: Flag): (r: nat)
    ensures f == Look <==> r == 0
  {
    match f
    case Forward => FORWARD_SCANCODE
    case Backward => BACKWARD_SCANCODE
    case Right => RIGHT_SCANCODE
    case Left => LEFT_SCANCODE
    case Up => UP_SCANCODE
    case Down => DOWN_SCANCODE
    case Look => 0
  }

  /** `Controls::default`: nothing held, no motion. */
  function DefaultControls(): (r: Controls)
    ensures forall f :: !Get(r, f)
    ensures r.cursorDelta == (0.0, 0.0)
  {
    Controls(false, false, false, false, false, false, false, (0.0, 0.0))
  }

  /** `reset`: forget the accumulated motion, keep the flags. */
  function Reset(c: Controls): (r: Controls)
    ensures r.cursorDelta == (0.0, 0.0)
    ensures forall f :: Get(r, f) == Get(c, f)
  {
    c.(cursorDelta := (0.0, 0.0))
  }

  /** `handle_event`, key by key as the source tests them. */
  function HandleEvent(c: Controls, e: Event): (r: Controls)
    ensures e.OtherEvent? ==> r == c
    ensures !e.MouseMotion? ==> r.cursorDelta == c.cursorDelta
    ensures !e.KeyboardInput? && !e.MouseInput? ==> forall f :: Get(r, f) == Get(c, f)
    ensures forall f :: Get(r, f) != Get(c, f) ==>
      || (e.KeyboardInput? && f != Look && KeyOf(f) == e.scancode && Get(r, f) == e.pressed)
      || (e.MouseInput? && e.button == RightButton && f == Look && Get(r, f) == e.pressed)
  {
    match e
    case KeyboardInput(sc, pressed) =>
      var c1 := if sc == FORWARD_SCANCODE then c.(goForward := pressed) else c;
      var c2 := if sc == BACKWARD_SCANCODE then c1.(goBackward := pressed) else c1;
      var c3 := if sc == RIGHT_SCANCODE then c2.(strafeRight := pressed) else c2;
      var c4 := if sc == LEFT_SCANCODE then c3.(strafeLeft := pressed) else c3;
      var c5 := if sc == UP_SCANCODE then c4.(goUp := pressed) else c4;
      if sc == DOWN_SCANCODE then c5.(goDown := pressed) else c5
    case MouseInput(button, pressed) =>
      if button == RightButton then c.(lookAround := pressed) else c
    case MouseMotion(dx, dy) =>
      c.(cursorDelta := (c.cursorDelta.0 + dx, c.cursorDelta.1 + dy))
    case OtherEvent => c
  }

  /** A key event sets exactly the flag bound to that key to the key's state, and
      an unbound key changes nothing. */
  lemma KeyEventSetsBoundFlag(c: Controls, sc: nat, pressed: bool)
    ensures var r := HandleEvent(c, KeyboardInput(sc, pressed));
      && r.cursorDelta == c.cursorDelta
      && forall f :: Get(r, f) == if f != Look && KeyOf(f) == sc then pressed else Get(c, f)
  {
    var r := HandleEvent(c, KeyboardInput(sc, pressed));
    forall f
      ensures Get(r, f) == if f != Look && KeyOf(f) == sc then pressed else Get(c, f)
    {
      KeyEventFlag(c, sc, pressed, f);
    }
  }

  lemma KeyEventFlag(c: Controls, sc: nat, pressed: bool, f: Flag)
    ensures Get(HandleEvent(c, KeyboardInput(sc, pressed)), f)
         == if f != Look && KeyOf(f) == sc then pressed else Get(c, f)
  {
    match f
    case Forward =>
    case Backward =>
    case Right =>
    case Left =>
    case Up =>
    case Down =>
    case Look =>
  }

  lemma UnboundKeyIgnored(c: Controls, sc: nat, pressed: bool)
    requires forall f :: f != Look ==> KeyOf(f) != sc
    ensures HandleEvent(c, KeyboardInput(sc, pressed)) == c
  {
    assert KeyOf(Forward) != sc && KeyOf(Backward) != sc && KeyOf(Right) != sc;
    assert KeyOf(Left) != sc && KeyOf(Up) != sc && KeyOf(Down) != sc;
  }

  /** The right mouse button drives looking around; other buttons are ignored. */
  lemma MouseEventSetsLook(c: Controls, b: MouseButton, pressed: bool)
    ensures var r := HandleEvent(c, MouseInput(b, pressed));
      && r.cursorDelta == c.cursorDelta
      && forall f :: Get(r, f) == if f == Look && b == RightButton then pressed else Get(c, f)
  {
  }

  /** Mouse motion accumulates into the delta and touches no flag. */
  lemma MotionAccumulates(c: Controls, dx1: real, dy1: real, dx2: real, dy2: real)
    ensures var r := HandleEvent(HandleEvent(c, MouseMotion(dx1, dy1)), MouseMotion(dx2, dy2));
      && r.cursorDelta == (c.cursorDelta.0 + dx1 + dx2, c.cursorDelta.1 + dy1 + dy2)
      && forall f :: Get(r, f) == Get(c, f)
  {
  }
}
