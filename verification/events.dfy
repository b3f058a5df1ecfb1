/** The window events the two input trackers consume, in the shape the
    windowing backend (winit) delivers them, reduced to the fields the
    trackers read. */
module Events {

  /** Rust's Option. */
  datatype Option<+T> = None | Some(value: T)

  /** A HashMap lookup (`HashMap::get`): the value stored under `k`, if any. */
  function Get<K(==), V>(m: map<K, V>, k: K): (r: Option<V>)
    ensures r.Some? <==> k in m
    ensures r.Some? ==> r.value == m[k]
  {
    if k in m then Some(m[k]) else None
  }

  /** winit numbers extra mouse buttons with a u16. */
  newtype u16 = x: int | 0 <= x < 0x1_0000

  datatype ElementState = Pressed | Released

  datatype MouseButton = Left | Right | Middle | Other(n: u16)

  /** A virtual key code: winit's key enumeration, kept abstract. */
  type KeyCode = nat

  /** The window events the trackers look at. A cursor position arrives as
      a pair of integers (the backend's floating-point coordinates after the
      cast to i32); a wheel event carries no amount because the wheel is not
      part of this model; every other window event is `OtherEvent`. */
  datatype WindowEvent =
    | CursorMoved(position: (int, int))
    | MouseInput(state: ElementState, button: MouseButton)
    | MouseWheel
    | KeyboardInput(state: ElementState, virtualKeycode: Option<KeyCode>)
    | OtherEvent
}
