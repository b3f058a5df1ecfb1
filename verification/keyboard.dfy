/** Per-frame keyboard state: two lazily filled key tables, one holding
    whether each key is down and one marking the keys that changed during
    the current frame. A key never seen reads as up and unchanged. */
module KeyboardTracker {
  import opened Events

  class Keyboard {
    var keys: map<KeyCode, bool>
    var thisFrame: map<KeyCode, bool>

    constructor ()
      ensures keys == map[] && thisFrame == map[]
    {
      keys := map[];
      thisFrame := map[];
    }

    /** The key is down; a key with no entry is up. */
    function IsPressed(key: KeyCode): (down: bool)
      reads this
      ensures down <==> key in keys && keys[key]
    {
      match Get(keys, key)
      case Some(true) => true
      case _ => false
    }

    /** The key changed during this frame. */
    function Changed(key: KeyCode): (changed: bool)
      reads this
      ensures changed <==> key in thisFrame && thisFrame[key]
    {
      match Get(thisFrame, key)
      case Some(true) => true
      case _ => false
    }

    /** The key went down during this frame and is still down. */
    function PressedThisFrame(key: KeyCode): (r: bool)
      reads this
      ensures r <==> IsPressed(key) && Changed(key)
    {
      match Get(keys, key)
      case Some(true) =>
        (match Get(thisFrame, key)
         case Some(true) => true
         case _ => false)
      case _ => false
    }

    /** The key went up during this frame (or changed without ever being
        down) and is up now; never true together with `PressedThisFrame`. */
    function ReleasedThisFrame(key: KeyCode): (r: bool)
      reads this
      ensures r <==> !IsPressed(key) && Changed(key)
      ensures r ==> !PressedThisFrame(key)
    {
      match Get(keys, key)
      case Some(true) => false
      case _ =>
        (match Get(thisFrame, key)
         case Some(true) => true
         case _ => false)
    }

    method Press(key: KeyCode)
      modifies this
      ensures keys == old(keys)[key := true]
      ensures thisFrame == old(thisFrame)[key := true]
      ensures IsPressed(key) && PressedThisFrame(key)
    {
      keys := keys[key := true];
      thisFrame := thisFrame[key := true];
    }

    method Release(key: KeyCode)
      modifies this
      ensures keys == old(keys)[key := false]
      ensures thisFrame == old(thisFrame)[key := true]
      ensures !IsPressed(key) && ReleasedThisFrame(key)
    {
      keys := keys[key := false];
      thisFrame := thisFrame[key := true];
    }

    /** A key event that names a virtual key records a press or a release
        of that key; any other event, and a key event without a virtual
        key code, changes nothing. */
    method HandleEvent(event: WindowEvent)
      modifies this
      ensures event.KeyboardInput? && event.virtualKeycode.Some? ==>
        var key := event.virtualKeycode.value;
        keys == old(keys)[key := event.state == Pressed] &&
        thisFrame == old(thisFrame)[key := true]
      ensures !(event.KeyboardInput? && event.virtualKeycode.Some?) ==>
        keys == old(keys) && thisFrame == old(thisFrame)
    {
      match event
      case KeyboardInput(state, virtualKeycode) =>
        match virtualKeycode {
          case None =>
          case Some(key) =>
            if state == Pressed {
              Press(key);
            } else {
              Release(key);
            }
        }
      case _ =>
    }

    /** Frame boundary: forget which keys changed; which keys are down
        stays. */
    method NextFrame()
      modifies this`thisFrame
      ensures thisFrame == map[]
      ensures forall key :: !PressedThisFrame(key) && !ReleasedThisFrame(key)
      ensures forall key :: IsPressed(key) == old(IsPressed(key))
    {
      thisFrame := map[];
    }
  }

  /** A press and a release of one key in the same frame leave it up and
      released this frame. */
  method PressThenRelease(key: KeyCode) returns (down: bool, released: bool)
    ensures !down && released
  {
    var kb := new Keyboard();
    kb.HandleEvent(KeyboardInput(Pressed, Some(key)));
    kb.HandleEvent(KeyboardInput(Released, Some(key)));
    down := kb.IsPressed(key);
    released := kb.ReleasedThisFrame(key);
  }

  /** A press is seen as pressed this frame; after the frame boundary the
      key is still down but no longer pressed this frame. */
  method PressThenNextFrame(key: KeyCode) returns (edge: bool, downAfter: bool, edgeAfter: bool)
    ensures edge && downAfter && !edgeAfter
  {
    var kb := new Keyboard();
    kb.HandleEvent(KeyboardInput(Pressed, Some(key)));
    edge := kb.PressedThisFrame(key);
    kb.NextFrame();
    downAfter := kb.IsPressed(key);
    edgeAfter := kb.PressedThisFrame(key);
  }
}
