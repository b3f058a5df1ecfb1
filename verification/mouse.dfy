/** Per-frame mouse state: a ten-slot button table with a level flag and a
    "changed this frame" flag per slot, the cursor position and the
    movement accumulated since the last frame boundary. */
module MouseTracker {
  import opened Events

  /** Number of button slots the tracker keeps. */
  const Slots: nat := 10

  /** The slot a button event is recorded in: Left, Middle and Right take
      slots 0, 1 and 2, `Other(n)` takes slot `n`, and a button numbered
      above 9 has no slot (its events are dropped). */
  function ButtonSlot(button: MouseButton): (slot: Option<nat>)
    ensures slot.Some? ==> slot.value < Slots
    ensures slot.None? <==> button.Other? && button.n > 9
    ensures button == Left ==> slot == Some(0)
    ensures button == Middle ==> slot == Some(1)
    ensures button == Right ==> slot == Some(2)
    ensures button.Other? && slot.Some? ==> slot.value == button.n as nat
  {
    match button
    case Left => Some(0)
    case Middle => Some(1)
    case Right => Some(2)
    case Other(n) => if n > 9 then None else Some(n as nat)
  }

  class Mouse {
    var thisFrame: array<bool>
    var pressed: array<bool>
    var pos: (int, int)
    var delta: (int, int)
    /** Where the cursor was at the last frame boundary: what `delta` is
        measured from. */
    ghost var frameStart: (int, int)

    /** Two distinct ten-slot tables, and the delta is the cursor's
        displacement since the last frame boundary. */
    ghost predicate Valid()
      reads this
    {
      thisFrame.Length == Slots && pressed.Length == Slots && thisFrame != pressed &&
      delta == (pos.0 - frameStart.0, pos.1 - frameStart.1)
    }

    constructor ()
      ensures Valid() && fresh(thisFrame) && fresh(pressed)
      ensures forall b :: 0 <= b < Slots ==> !thisFrame[b] && !pressed[b]
      ensures pos == (0, 0) && delta == (0, 0)
    {
      thisFrame := new bool[Slots](_ => false);
      pressed := new bool[Slots](_ => false);
      pos, delta := (0, 0), (0, 0);
      frameStart := (0, 0);
    }

    /** Level state of a slot. */
    function IsPressed(button: nat): (down: bool)
      reads this, pressed
      requires Valid() && button < Slots
      ensures down == pressed[button]
    {
      pressed[button]
    }

    /** The slot went down during this frame and is still down. */
    function PressedThisFrame(button: nat): (r: bool)
      reads this, pressed, thisFrame
      requires Valid() && button < Slots
      ensures r <==> IsPressed(button) && thisFrame[button]
    {
      pressed[button] && thisFrame[button]
    }

    /** The slot went up during this frame and is still up; never true
        together with `PressedThisFrame`. */
    function ReleasedThisFrame(button: nat): (r: bool)
      reads this, pressed, thisFrame
      requires Valid() && button < Slots
      ensures r <==> !IsPressed(button) && thisFrame[button]
      ensures r ==> !PressedThisFrame(button)
    {
      !pressed[button] && thisFrame[button]
    }

    /** The cursor position: where it was at the frame boundary, moved by
        this frame's delta. */
    function GetPos(): (p: (int, int))
      reads this
      requires Valid()
      ensures p == (frameStart.0 + delta.0, frameStart.1 + delta.1)
    {
      pos
    }

    /** The movement accumulated this frame: the displacement from the
        position at the last frame boundary to the current one. */
    function GetDelta(): (d: (int, int))
      reads this
      requires Valid()
      ensures d == (pos.0 - frameStart.0, pos.1 - frameStart.1)
    {
      delta
    }

    method PressButton(button: nat)
      requires Valid() && button < Slots
      modifies thisFrame, pressed
      ensures Valid()
      ensures thisFrame[..] == old(thisFrame[..])[button := true]
      ensures pressed[..] == old(pressed[..])[button := true]
      ensures PressedThisFrame(button)
    {
      thisFrame[button] := true;
      pressed[button] := true;
    }

    method ReleaseButton(button: nat)
      requires Valid() && button < Slots
      modifies thisFrame, pressed
      ensures Valid()
      ensures thisFrame[..] == old(thisFrame[..])[button := true]
      ensures pressed[..] == old(pressed[..])[button := false]
      ensures ReleasedThisFrame(button)
    {
      thisFrame[button] := true;
      pressed[button] := false;
    }

    /** Move the cursor by `d`, counting the move in this frame's delta. */
    method Translate(d: (int, int))
      requires Valid()
      modifies this`pos, this`delta
      ensures Valid()
      ensures pos == (old(pos).0 + d.0, old(pos).1 + d.1)
      ensures delta == (old(delta).0 + d.0, old(delta).1 + d.1)
    {
      delta := (delta.0 + d.0, delta.1 + d.1);
      pos := (pos.0 + d.0, pos.1 + d.1);
    }

    /** Set the absolute position, adding the jump from the old position to
        this frame's delta. */
    method UpdatePos(p: (int, int))
      requires Valid()
      modifies this`pos, this`delta
      ensures Valid()
      ensures pos == p
      ensures delta == (old(delta).0 + p.0 - old(pos).0, old(delta).1 + p.1 - old(pos).1)
    {
      delta := (delta.0 + p.0 - pos.0, delta.1 + p.1 - pos.1);
      pos := p;
    }

    /** A cursor move sets the position; a button event with a slot sets
        that slot's level to the event's state and marks it changed; every
        other event, and a button without a slot, changes nothing. */
    method HandleEvent(event: WindowEvent)
      requires Valid()
      modifies this`pos, this`delta, thisFrame, pressed
      ensures Valid()
      ensures event.CursorMoved? ==>
        pos == event.position &&
        delta == (old(delta).0 + event.position.0 - old(pos).0,
                  old(delta).1 + event.position.1 - old(pos).1) &&
        thisFrame[..] == old(thisFrame[..]) && pressed[..] == old(pressed[..])
      ensures event.MouseInput? && ButtonSlot(event.button).Some? ==>
        var slot := ButtonSlot(event.button).value;
        thisFrame[..] == old(thisFrame[..])[slot := true] &&
        pressed[..] == old(pressed[..])[slot := event.state == Pressed] &&
        pos == old(pos) && delta == old(delta)
      ensures !event.CursorMoved? && !(event.MouseInput? && ButtonSlot(event.button).Some?) ==>
        thisFrame[..] == old(thisFrame[..]) && pressed[..] == old(pressed[..]) &&
        pos == old(pos) && delta == old(delta)
    {
      match event
      case CursorMoved(position) =>
        UpdatePos(position);
      case MouseInput(state, button) =>
        var slot := ButtonSlot(button);
        if slot.None? {
          return;
        }
        if state == Pressed {
          PressButton(slot.value);
        } else {
          ReleaseButton(slot.value);
        }
      case _ =>
    }

    /** Frame boundary: clear the delta and every changed flag; the
        position and the level flags stay. */
    method NextFrame()
      requires Valid()
      modifies this`delta, this`frameStart, thisFrame
      ensures Valid()
      ensures delta == (0, 0) && frameStart == pos
      ensures forall b :: 0 <= b < Slots ==> !thisFrame[b]
      ensures pressed[..] == old(pressed[..])
    {
      delta := (0, 0);
      frameStart := pos;
      forall b | 0 <= b < Slots {
        thisFrame[b] := false;
      }
    }
  }

  /** A move from the start position to (5, -3), then a frame boundary:
      the delta is (5, -3) before the boundary and (0, 0) after it, while
      the position stays (5, -3). */
  method MoveThenNextFrame() returns (before: (int, int), after: (int, int), at: (int, int))
    ensures before == (5, -3) && after == (0, 0) && at == (5, -3)
  {
    var m := new Mouse();
    m.HandleEvent(CursorMoved((5, -3)));
    before := m.GetDelta();
    m.NextFrame();
    after := m.GetDelta();
    at := m.GetPos();
  }

  /** A press of button `Other(11)` is dropped: no level flag, no changed
      flag, neither the position nor the delta changes. */
  method OutOfRangeButtonIgnored() returns (sameLevels: bool, sameFlags: bool, samePos: bool, sameDelta: bool)
    ensures sameLevels && sameFlags && samePos && sameDelta
  {
    var m := new Mouse();
    var levels, flags, pos, delta := m.pressed[..], m.thisFrame[..], m.pos, m.delta;
    m.HandleEvent(MouseInput(Pressed, Other(11)));
    sameLevels := m.pressed[..] == levels;
    sameFlags := m.thisFrame[..] == flags;
    samePos := m.pos == pos;
    sameDelta := m.delta == delta;
  }
}
