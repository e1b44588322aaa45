/**
 * The event thread's handler, run once per window event: it polls the health
 * flag, writes the event into the shared cells and chooses whether the event
 * loop waits for the next event or exits.
 */
module EventLoop {
  import opened Base
  import opened Keys
  import opened SharedState

  datatype ElementState = Pressed | Released

  /** The window and device events the handler distinguishes; others are `Other`. */
  datatype Event =
    | Resized(width: U32, height: U32)
    | CloseRequested
    | KeyboardInput(state: ElementState, keycode: Option<Key>)
    | MouseMotion(dx: real, dy: real)
    | Other

  datatype ControlFlow = Wait | Exit

  /** Escape and Q end the program, on press and on release alike. */
  predicate IsQuitKey(k: Key) {
    k == Escape || k == Q
  }

  /** The key list after one event: only keyboard events with a key code change it. */
  function KeysAfterEvent(s: seq<Key>, e: Event): seq<Key> {
    match e
    case KeyboardInput(Pressed, Some(k)) => AfterPress(s, k)
    case KeyboardInput(Released, Some(k)) => AfterRelease(s, k)
    case _ => s
  }

  /** The handler's closure for one event. */
  method HandleEvent(event: Event, health: HealthFlag, sizes: WindowSizeCell, keys: PressedKeys, mouse: MouseDeltaCell)
    returns (flow: ControlFlow)
    modifies sizes, keys, mouse
    ensures flow == Exit <==>
      !health.healthy || event.CloseRequested? ||
      (event.KeyboardInput? && event.keycode.Some? && IsQuitKey(event.keycode.value))
    ensures sizes.size == if event.Resized? then WindowSize(event.width, event.height, true) else old(sizes.size)
    ensures keys.keys == KeysAfterEvent(old(keys.keys), event)
    ensures old(keys.Valid()) ==> keys.Valid()
    ensures mouse.delta == if event.MouseMotion? then (old(mouse.delta).0 + event.dx, old(mouse.delta).1 + event.dy)
                           else old(mouse.delta)
  {
    flow := Wait;

    if !health.healthy {
      flow := Exit;
    }

    match event {
      case Resized(w, h) =>
        sizes.Write(w, h);
      case CloseRequested =>
        flow := Exit;
      case KeyboardInput(state, Some(k)) =>
        match state {
          case Released => keys.Release(k);
          case Pressed => keys.Press(k);
        }
        if k == Escape || k == Q {
          flow := Exit;
        }
      case MouseMotion(dx, dy) =>
        mouse.Accumulate(dx, dy);
      case _ =>
    }
  }

  /** The key list after a series of events, handled in order. */
  function KeysAfterEvents(s: seq<Key>, es: seq<Event>): seq<Key>
    decreases |es|
  {
    if es == [] then s else KeysAfterEvent(KeysAfterEvents(s, es[..|es| - 1]), es[|es| - 1])
  }

  /** The state of the last keyboard transition of `k` in the series, if any. */
  function LastTransition(k: Key, es: seq<Event>): Option<ElementState>
    decreases |es|
  {
    if es == [] then None
    else
      var e := es[|es| - 1];
      if e.KeyboardInput? && e.keycode == Some(k) then Some(e.state)
      else LastTransition(k, es[..|es| - 1])
  }

  /**
   * Starting from a list without duplicates, after any series of events the
   * list still has none, and a key is in it exactly when its last transition
   * was a press, or when it had no transition and was in the list before.
   */
  lemma {:induction false} HeldIffLastPressed(s: seq<Key>, es: seq<Event>, k: Key)
    requires NoDuplicates(s)
    ensures NoDuplicates(KeysAfterEvents(s, es))
    ensures k in KeysAfterEvents(s, es) <==>
      LastTransition(k, es) == Some(Pressed) || (LastTransition(k, es) == None && k in s)
    decreases |es|
  {
    if es != [] {
      var init := es[..|es| - 1];
      var e := es[|es| - 1];
      var before := KeysAfterEvents(s, init);
      HeldIffLastPressed(s, init, k);
      match e
      case KeyboardInput(Pressed, Some(c)) =>
        PressKeepsNoDuplicates(before, c);
      case KeyboardInput(Released, Some(c)) =>
        ReleaseKeepsNoDuplicates(before, c);
      case _ =>
    }
  }

  /** The initial, empty list holds exactly the keys whose last transition was a press. */
  lemma HeldFromStart(es: seq<Event>, k: Key)
    ensures NoDuplicates(KeysAfterEvents([], es))
    ensures k in KeysAfterEvents([], es) <==> LastTransition(k, es) == Some(Pressed)
  {
    HeldIffLastPressed([], es, k);
  }
}
