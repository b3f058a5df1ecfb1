# glium-app input state and persistent windows, in Dafny

This project models the bookkeeping beneath glium-app's window and GUI glue:

- **Mouse tracker** (`MouseTracker.Mouse`, `mouse.dfy`). It keeps a ten-slot button table as two `array<bool>`, one for the level ("pressed") and one for "changed this frame". It also keeps the cursor position and the movement delta accumulated during the current frame. Cursor moves and button events update it, and `NextFrame` clears the per-frame data. A ghost field `frameStart` records where the cursor was at the last frame boundary. The object invariant `Valid()` states that the delta is always the displacement from there to the current position, whatever mix of moves, translations and button events happened in the frame.
- **Keyboard tracker** (`KeyboardTracker.Keyboard`, `keyboard.dfy`). It applies the same level/edge scheme over two lazily filled `map<KeyCode, bool>` fields. A key with no entry reads as up and unchanged.
- **Persistent window list** (`PersistentWindows`, `persistent_window.dfy`). Windows take ids from a counter (`WindowIds`, `NewWindow`). The manager holds them in a sequence that `Push` appends to. `Render` calls each window's closure once, in list order, and keeps exactly the windows whose closure returned true. A closure call is an abstract `WindowCall`. It takes the window and the application state left by the calls before it, and returns whether to keep the window and the state it leaves. `Render` threads that state through the pass and returns it, so the order of the calls shows in the result. The spec functions `StateAfter` (the state after a sequence of calls in list order) and `Retained` (the list after a pass) describe a pass, and the lemmas about them prove that:
  - the result is the subsequence at the positions whose closure returned true, in order;
  - ids stay distinct and below the counter;
  - a dropped window's id is absent after the pass and stays absent through later passes and later pushes of windows made from the counter, so no later pass calls that window.
- `events.dfy` holds the window-event shapes both trackers read, reduced to the fields they use.

The source keeps the per-window callback in a field called `function`. That word is reserved in Dafny, so the field is called `callback` here.

This version of `PersistentWindowManager` has no list of windows queued during a pass: `push` appends directly and `render` only filters. The model follows that.

## Model

| member | source | states |
|---|---|---|
| `Events.Get` | src/io/keyboard.rs:58-60 | a map lookup yields a value exactly when the key is present, and then the stored value |
| `MouseTracker.ButtonSlot` | src/io/mouse.rs:61-78 | Left, Middle and Right go to slots 0, 1 and 2, and `Other(n)` goes to slot n; there is no slot exactly when the button is `Other(n)` with n > 9; every slot is below 10 |
| `MouseTracker.Mouse.constructor` | src/io/mouse.rs:12-20 | a new tracker has every slot up and unchanged, position and delta (0, 0), and the delta invariant holds |
| `MouseTracker.Mouse.IsPressed` | src/io/mouse.rs:131-133 | the level flag of a slot; callers must pass a slot below 10, where the Rust indexing would panic otherwise |
| `MouseTracker.Mouse.PressedThisFrame` | src/io/mouse.rs:135-137 | true exactly when the slot is down and changed this frame |
| `MouseTracker.Mouse.ReleasedThisFrame` | src/io/mouse.rs:139-141 | true exactly when the slot is up and changed this frame; never true together with pressed-this-frame |
| `MouseTracker.Mouse.GetPos` | src/io/mouse.rs:119-121 | the position is the position at the last frame boundary plus this frame's delta |
| `MouseTracker.Mouse.GetDelta` | src/io/mouse.rs:123-125 | the delta is the current position minus the position at the last frame boundary |
| `MouseTracker.Mouse.PressButton` | src/io/mouse.rs:22-25 | sets the slot's level and changed flags; every other slot, the position and the delta are unchanged; the slot then reads as pressed this frame |
| `MouseTracker.Mouse.ReleaseButton` | src/io/mouse.rs:27-30 | clears the slot's level and sets its changed flag; nothing else changes; the slot then reads as released this frame |
| `MouseTracker.Mouse.Translate` | src/io/mouse.rs:32-37 | adds the offset to both the position and the delta, component by component, and keeps the delta invariant |
| `MouseTracker.Mouse.UpdatePos` | src/io/mouse.rs:39-44 | sets the absolute position and adds the jump from the old position to the delta, keeping the delta invariant |
| `MouseTracker.Mouse.HandleEvent` | src/io/mouse.rs:46-99 | a cursor move sets the position and grows the delta by the jump; a button event with a slot sets that slot's level to the event state and its changed flag; a button above 9 and every other event change nothing |
| `MouseTracker.Mouse.NextFrame` | src/io/mouse.rs:112-116 | the delta becomes (0, 0), every changed flag becomes false, the frame start becomes the current position, and position and level flags are untouched |
| `MouseTracker.MoveThenNextFrame` | src/io/mouse.rs:112-125 | a move from the start to (5, -3) gives delta (5, -3); after the frame boundary the delta is (0, 0) and the position is still (5, -3) |
| `MouseTracker.OutOfRangeButtonIgnored` | src/io/mouse.rs:72-75 | a press of `Other(11)` changes no state: the level flags, the changed flags, the position and the delta all stay as they were |
| `KeyboardTracker.Keyboard.constructor` | src/io/keyboard.rs:12-17 | a new tracker has both tables empty |
| `KeyboardTracker.Keyboard.IsPressed` | src/io/keyboard.rs:77-82 | true exactly when the key has an entry and that entry is true, so a key never seen is up |
| `KeyboardTracker.Keyboard.Changed` | src/io/keyboard.rs:60-63 | true exactly when the key has a true entry in the changed-this-frame table |
| `KeyboardTracker.Keyboard.PressedThisFrame` | src/io/keyboard.rs:57-65 | true exactly when the key is down and changed this frame |
| `KeyboardTracker.Keyboard.ReleasedThisFrame` | src/io/keyboard.rs:67-75 | true exactly when the key is up (absent or false) and changed this frame; never true together with pressed-this-frame |
| `KeyboardTracker.Keyboard.Press` | src/io/keyboard.rs:19-22 | maps the key to true in both tables and leaves other keys' entries alone; the key then reads as pressed this frame |
| `KeyboardTracker.Keyboard.Release` | src/io/keyboard.rs:24-27 | maps the key to false in the level table and to true in the changed table, leaving other keys alone; the key then reads as up and released this frame |
| `KeyboardTracker.Keyboard.HandleEvent` | src/io/keyboard.rs:29-55 | a key event with a virtual key code records a press or a release of that key; a key event without one, and any other event, leaves both tables unchanged |
| `KeyboardTracker.Keyboard.NextFrame` | src/io/keyboard.rs:84-86 | empties the changed table, leaves the level table alone: afterwards no key is pressed or released this frame and every key's level is as before |
| `KeyboardTracker.PressThenRelease` | src/io/keyboard.rs:19-27 | a press and then a release of one key in the same frame leave it up and released this frame |
| `KeyboardTracker.PressThenNextFrame` | src/io/keyboard.rs:84-86 | a press reads as pressed this frame; after the frame boundary the key is still down but no longer pressed this frame |
| `PersistentWindows.WindowIds.constructor` | src/utils/persistent_window.rs:10 | the id counter starts at 0 |
| `PersistentWindows.NewWindow` | src/utils/persistent_window.rs:20-22 | the window takes the counter's current value as its id and keeps the given closure; the counter grows by one, so the id is below the counter from then on |
| `PersistentWindows.CallsInListOrder` | src/utils/persistent_window.rs:34-37 | with closures that append their window's id to the state, a pass over windows 3 then 5 leaves [3, 5], so the calls run in list order |
| `PersistentWindows.TwoWindows` | src/utils/persistent_window.rs:20-22 | two windows made in succession from one counter have strictly increasing ids |
| `PersistentWindows.PersistentWindowManager.constructor` | src/utils/persistent_window.rs:26-28 | a new manager's list is empty |
| `PersistentWindows.PersistentWindowManager.Push` | src/utils/persistent_window.rs:30-32 | the window is appended at the end; the windows already there and their order are unchanged |
| `PersistentWindows.PersistentWindowManager.Render` | src/utils/persistent_window.rs:34-38 | every window's closure is called exactly once, in list order, each with the state the calls before it left: the returned state is `StateAfter` of the old list, and the list becomes `Retained` of the old list |
| `PersistentWindows.Retained` | src/utils/persistent_window.rs:35-38 | the list after a pass is no longer than before, and every window in it was in the list before |
| `PersistentWindows.KeptPositions` | src/utils/persistent_window.rs:35-38 | the positions of the kept windows are in range and strictly increasing |
| `PersistentWindows.KeptAtPrefix` | src/utils/persistent_window.rs:35-37 | what the closure at a position returns in a pass depends only on the windows up to that position |
| `PersistentWindows.KeptPositionsExact` | src/utils/persistent_window.rs:35-37 | a position is kept if and only if the closure called there returned true |
| `PersistentWindows.RetainedAt` | src/utils/persistent_window.rs:35-38 | the k-th retained window is the window at the k-th kept position |
| `PersistentWindows.RetainedIsFilter` | src/utils/persistent_window.rs:35-38 | after a pass the list is exactly the windows whose closure returned true, in their original relative order |
| `PersistentWindows.RetainedKeepsIds` | src/utils/persistent_window.rs:35-38 | a pass keeps ids distinct and keeps them below the counter |
| `PersistentWindows.DroppedWindowGone` | src/utils/persistent_window.rs:35-38 | with distinct ids, no window left after the pass carries the id of a window whose closure returned false |
| `PersistentWindows.RetainedKeepsAbsent` | src/utils/persistent_window.rs:35-38 | an id absent from the list stays absent through a render pass |
| `PersistentWindows.PushFreshKeepsAbsent` | src/utils/persistent_window.rs:20-32 | an id absent from the list and below the counter stays absent when a window just made from the counter is pushed; with `RetainedKeepsAbsent` and `DroppedWindowGone`, a dropped window is never called by a later pass |
| `PersistentWindows.KeptWindowStays` | src/utils/persistent_window.rs:35-38 | a window whose closure returned true is still in the list after the pass |
| `PersistentWindows.PushFreshKeepsIds` | src/utils/persistent_window.rs:30-32 | pushing a window just made from the counter keeps the list's ids distinct and below the counter |

## Left out

- The mouse wheel: the `wheel` field, `scroll`, `get_scroll`, the wheel reset in `next_frame` and the axis swap of `LineDelta`. These are floating-point accumulators. A `MouseWheel` event therefore changes nothing in the model.
- `set_pos` of the mouse: it ends in `todo!()` and always panics, so it is not modelled.
- The `f64` to `i32` casts of cursor coordinates: a cursor move arrives as integer coordinates.
- `i32` overflow of `pos` and `delta`: the model uses unbounded integers, so it shows neither a debug-build panic nor release-build wrap-around.
- `u64` wrap-around of the window id counter, and the atomic, relaxed-ordering nature of that counter: it is a plain counter object owned by the model.
- The bodies of window closures and the egui `Context` they receive: a call is modelled only through `WindowCall`, as the boolean it returns and the state it leaves. The state `S` stands for the shared application state together with the closures' captured state. A closure that panics is not modelled.
- src/lib.rs, the frame driver (`run`, `create`, `run_with_context`, the event pump, display and GL context creation, the GUI's `on_event`, the frame timer): these are I/O plumbing around external libraries. The `Timer` module is not part of this model.
- src/context.rs: the `Display`/`EguiGlium` ownership and the foreign cursor-grab and visibility calls. Its `handle_event` forwards a different event type than the trackers take, so it is not modelled either.
- Window ids in the manager: the source lets any window be pushed, so the manager has no invariant on ids. Distinctness is proved as lemmas, under the assumption that every pushed window came from `NewWindow`.
