/**
 * The cells shared between the event thread and the render thread, each
 * behind its own lock: the window size with its resize-pending flag, the
 * mouse-motion accumulator and the render thread's health flag. (The
 * pressed-key list, the fourth cell, is in module Keys.) Each method is one
 * thread's critical section, run sequentially; lock poisoning is not modelled.
 */
module SharedState {
  import opened Base

  const INITIAL_SCREEN_W: U32 := 800
  const INITIAL_SCREEN_H: U32 := 600

  // ---------------------------------------------------------------------
  // Window size and resize hand-off
  // ---------------------------------------------------------------------

  /** The locked tuple `(width, height, resize_pending)`. */
  datatype WindowSize = WindowSize(width: U32, height: U32, pending: bool)

  /**
   * The render side's step on the cell and its aspect ratio: when a resize is
   * pending, take `width / height` and clear the flag; otherwise change nothing.
   */
  function ApplyResize(s: WindowSize, aspect: Ratio): (WindowSize, Ratio) {
    if s.pending then (s.(pending := false), Ratio(s.width, s.height)) else (s, aspect)
  }

  /** An interleaving of the two sides' critical sections on the size cell. */
  datatype SizeAction = Write(width: U32, height: U32) | Frame

  /** The cell and the render side's aspect ratio after running `acts` in order. */
  function Run(s: WindowSize, aspect: Ratio, acts: seq<SizeAction>): (WindowSize, Ratio)
    decreases |acts|
  {
    if acts == [] then (s, aspect)
    else
      var (s', a') := Run(s, aspect, acts[..|acts| - 1]);
      match acts[|acts| - 1]
      case Write(w, h) => (WindowSize(w, h, true), a')
      case Frame => ApplyResize(s', a')
  }

  /** `Run` over a concatenation is `Run` over the second part from where the first ended. */
  lemma {:induction false} RunConcat(s: WindowSize, aspect: Ratio, a: seq<SizeAction>, b: seq<SizeAction>)
    ensures Run(s, aspect, a + b) == Run(Run(s, aspect, a).0, Run(s, aspect, a).1, b)
    decreases |b|
  {
    if b != [] {
      assert (a + b)[..|a + b| - 1] == a + b[..|b| - 1];
      assert (a + b)[|a + b| - 1] == b[|b| - 1];
      RunConcat(s, aspect, a, b[..|b| - 1]);
    } else {
      assert a + b == a;
    }
  }

  /** Frames with no write in between change nothing once no resize is pending. */
  lemma {:induction false} FramesIdle(s: WindowSize, aspect: Ratio, frames: seq<SizeAction>)
    requires !s.pending
    requires forall i :: 0 <= i < |frames| ==> frames[i] == Frame
    ensures Run(s, aspect, frames) == (s, aspect)
    decreases |frames|
  {
    if frames != [] {
      FramesIdle(s, aspect, frames[..|frames| - 1]);
    }
  }

  /**
   * After a write of `(w, h)`, the first frame takes `w / h` and clears the
   * flag; the cell keeps `w` and `h`; later frames without a new write change
   * neither the cell nor the aspect ratio. Before any frame the write is
   * pending and the aspect ratio is the previous one.
   */
  lemma ResizeTakenExactlyOnce(s: WindowSize, aspect: Ratio, before: seq<SizeAction>, w: U32, h: U32, frames: seq<SizeAction>)
    requires forall i :: 0 <= i < |frames| ==> frames[i] == Frame
    ensures Run(s, aspect, before + [Write(w, h)]) == (WindowSize(w, h, true), Run(s, aspect, before).1)
    ensures frames != [] ==>
      Run(s, aspect, before + [Write(w, h)] + frames) == (WindowSize(w, h, false), Ratio(w, h))
  {
    var acts := before + [Write(w, h)];
    assert acts[..|acts| - 1] == before;
    if frames != [] {
      RunConcat(s, aspect, acts, [frames[0]]);
      assert Run(s, aspect, acts + [frames[0]]) == (WindowSize(w, h, false), Ratio(w, h)) by {
        assert (acts + [frames[0]])[..|acts|] == acts;
      }
      RunConcat(s, aspect, acts + [frames[0]], frames[1..]);
      FramesIdle(WindowSize(w, h, false), Ratio(w, h), frames[1..]);
      assert acts + [frames[0]] + frames[1..] == acts + frames;
    }
  }

  /** The shared size cell. */
  class WindowSizeCell {
    var size: WindowSize

    /** Created with the initial window size and nothing pending. */
    constructor ()
      ensures size == WindowSize(INITIAL_SCREEN_W, INITIAL_SCREEN_H, false)
    {
      size := WindowSize(INITIAL_SCREEN_W, INITIAL_SCREEN_H, false);
    }

    /** The event side on `Resized`: store the new size and mark it pending. */
    method Write(w: U32, h: U32)
      modifies this
      ensures size == WindowSize(w, h, true)
    {
      size := WindowSize(w, h, true);
    }

    /**
     * The render side: when a resize is pending, clear the flag and hand back
     * the new size as the aspect ratio; otherwise leave the cell alone.
     */
    method TakeResize() returns (r: Option<Ratio>)
      modifies this
      ensures old(size.pending) ==> r == Some(Ratio(old(size.width), old(size.height)))
      ensures !old(size.pending) ==> r == None
      ensures size == old(size).(pending := false)
    {
      r := None;
      if size.pending {
        r := Some(Ratio(size.width, size.height));
        size := size.(pending := false);
      }
    }
  }

  // ---------------------------------------------------------------------
  // Mouse-motion accumulator
  // ---------------------------------------------------------------------

  /** The locked pair of accumulated pointer motion; `f32` rounding is not modelled. */
  class MouseDeltaCell {
    var delta: (real, real)

    constructor ()
      ensures delta == (0.0, 0.0)
    {
      delta := (0.0, 0.0);
    }

    /** The event side on `MouseMotion`: add the motion to the running sum. */
    method Accumulate(dx: real, dy: real)
      modifies this
      ensures delta == (old(delta).0 + dx, old(delta).1 + dy)
    {
      delta := (delta.0 + dx, delta.1 + dy);
    }

    /** The render side, every frame: reset to zero without reading it. */
    method Reset()
      modifies this
      ensures delta == (0.0, 0.0)
    {
      delta := (0.0, 0.0);
    }
  }

  // ---------------------------------------------------------------------
  // Health flag
  // ---------------------------------------------------------------------

  /** The flag after watchdog observations with the given join outcomes. */
  function HealthAfter(healthy: bool, joins: seq<bool>): bool
    decreases |joins|
  {
    if joins == [] then healthy
    else
      var h := HealthAfter(healthy, joins[..|joins| - 1]);
      if !joins[|joins| - 1] then false else h
  }

  /**
   * The flag stays `true` exactly as long as every join succeeded, and once
   * `false` it is never `true` again, whatever is observed afterwards.
   */
  lemma {:induction false} HealthNeverRecovers(joins: seq<bool>, later: seq<bool>)
    ensures HealthAfter(true, joins) <==> forall i :: 0 <= i < |joins| ==> joins[i]
    ensures !HealthAfter(true, joins) ==> !HealthAfter(true, joins + later)
    decreases |joins| + |later|
  {
    if joins != [] {
      HealthNeverRecovers(joins[..|joins| - 1], []);
      assert forall i :: 0 <= i < |joins| - 1 ==> joins[..|joins| - 1][i] == joins[i];
    }
    if later != [] {
      var all := joins + later;
      assert all[..|all| - 1] == joins + later[..|later| - 1];
      HealthNeverRecovers(joins, later[..|later| - 1]);
    } else {
      assert joins + later == joins;
    }
  }

  /** The `RwLock<bool>` written once by the watchdog and read by the event thread. */
  class HealthFlag {
    var healthy: bool

    /** The render thread is healthy to begin with. */
    constructor ()
      ensures healthy
    {
      healthy := true;
    }

    /** The watchdog after `join`: a failed join clears the flag; a clean one leaves it. */
    method Watchdog(joinOk: bool)
      modifies this
      ensures healthy == HealthAfter(old(healthy), [joinOk])
      ensures healthy ==> old(healthy)
    {
      if !joinOk {
        healthy := false;
      }
    }
  }
}
