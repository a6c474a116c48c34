# mouse-swipe gesture engine, modelled in Dafny

mouse-swipe grabs every mouse on a Linux machine and re-emits its events
through one virtual input device. Each mouse has configured *swipe buttons*.
While a swipe button is held, the mouse's motion is accumulated. When the
button is released, the motion is turned into a key chord: a click when
there was no motion, otherwise the chord of the dominant swipe direction. In
scroll mode the motion is instead turned into wheel ticks while the button is
held. Every other event is passed through.

This project models the per-event step of that engine (`task_handle_mouse_events`)
and its two emitters (`emulate_event`, `emulate_key_press`) from `src/main.py`,
in the imperative form of the original:

- `Evdev` (evdev.dfy): the event types and relative-axis codes with their
  Linux values, raw input events, the entries written to the virtual device
  (`Event(type, code, value)` or `Sync`), and the table from key names to
  codes (`ecodes.ecodes`), which is passed as a parameter.
- `Emitter` (emitter.dfy): the virtual device as a class whose `log` the
  `write`/`syn` calls append to. `EmulateEvent` and `EmulateKeyPress` are
  proved to append exactly `EventWrites` and `KeyPressWrites`, and the layout
  of those writes is proved separately.
- `Gesture` (gesture.dfy): the engine as values. It gives, for one event, the
  new live state of a button (`pressed`, `deltaX`, `deltaY`, `moved`), what
  that button writes, and whether it keeps the raw event from being
  forwarded. It lifts this to the ordered button list of one mouse
  (`Advance`, `StepOutput`) and to finite streams (`Run`, `RunOutput`).
- `Engine` (engine.dfy): `SwipeButton` objects whose live fields are updated
  in place, and a `Mouse` that owns its own button objects. `HandleEvent` is
  one iteration of the `async for` loop, including the `should_forward` flag.
  `HandleEvents` folds it over a finite stream. Each is proved to do what
  `Gesture` says.
- `GestureFacts` (facts.dfy): the engine's behavioural properties, proved
  about `Gesture`:
  - which events are forwarded;
  - trigger keys;
  - release verdicts;
  - the strict motion threshold and sticky `moved`;
  - scroll ticks before forwarded motion;
  - sync-closed output;
  - composition of runs;
  - two whole gestures (a tap and a right swipe).

## Model

| member | source | states |
|---|---|---|
| Emitter.VirtualDevice.constructor | src/main.py:160 | the virtual device created at start-up has nothing written to it yet |
| Emitter.VirtualDevice.Write | src/main.py:46 | a `write` appends exactly one event entry to the device's stream |
| Emitter.VirtualDevice.Syn | src/main.py:51 | a `syn` appends exactly one sync entry |
| Emitter.HiResValue | src/main.py:48 | the companion value is +120 or -120, positive exactly when the wheel value is positive |
| Emitter.EventWrites | src/main.py:45-51 | what `emulate_event` writes: at least two entries, the event itself first, a sync last and no sync before it |
| Emitter.EventWritesShape | src/main.py:47-50 | between the event and the sync, the ±120 high-resolution companion is written exactly when the code is `REL_WHEEL` or `REL_HWHEEL`, whatever the type, with the matching `*_HI_RES` code; so 3 entries for a wheel code and 2 otherwise |
| Emitter.EmulateEvent | src/main.py:45-51 | appends exactly `EventWrites(type, code, value)` to the device and changes nothing else |
| Emitter.Presses | src/main.py:54-55 | one loop of `emulate_key_press` writes exactly one entry per key |
| Emitter.PressesAt | src/main.py:54-55 | one loop of writes has one entry per key, the i-th being the i-th key's code with the given value |
| Emitter.Reversed | src/main.py:58 | `reversed(keys)` has the same length and position i holds the key at the mirrored position; the clause that it holds only keys of `keys` follows from that and is stated for callers that need a key's table entry |
| Emitter.KeyPressWrites | src/main.py:53-60 | what `emulate_key_press` writes: 2·\|keys\|+2 entries with a sync after the key-downs and a sync last (the full layout is `KeyPressLayout`) |
| Emitter.KeyPressLayout | src/main.py:53-60 | a chorded press is exactly 2·\|keys\|+2 entries: key-downs (value 1) in list order, a sync, key-ups (value 0) in reverse order, a sync; an empty list gives two syncs |
| Emitter.KeyPressDeterminesKeys | src/main.py:53-60 | when no two names share a code, two key lists that write the same chord are the same list |
| Emitter.WriteKeys | src/main.py:54-55 | the loop of writes appends one `EV_KEY` write per key, in order, and nothing else |
| Emitter.EmulateKeyPress | src/main.py:53-60 | appends exactly `KeyPressWrites(keys)` (the layout above) |
| Gesture.IsHiRes | src/main.py:69 | the high-resolution codes, recognised by the code alone; they are none of the motion or wheel codes, so those are never swallowed |
| Gesture.HorizontalTick | src/main.py:84 | an X motion's wheel tick has magnitude 1 and is positive exactly when the motion is positive |
| Gesture.VerticalTick | src/main.py:92 | a Y motion's wheel tick has magnitude 1 and is positive exactly when the motion is not positive |
| Gesture.Direction | src/main.py:103-106 | right/left exactly when \|deltaX\| > \|deltaY\|, by the sign of deltaX; down/up otherwise (ties included), by the sign of deltaY; never a click |
| Gesture.Judge | src/main.py:99-106 | the release is a click exactly when the button has not moved. It yields no chord exactly when the button moved in scroll mode. Otherwise it is the swipe direction |
| Gesture.AfterRel | src/main.py:73-89 | a relative event keeps `pressed`; it adds the value to the distance on its own axis only when the button is held; `moved` is set exactly when it already was or the held button's distance on the event's axis is now strictly beyond `delta`, and is never cleared |
| Gesture.RelEmitted | src/main.py:83-84 | a button writes for a relative event exactly when it is held, scrolls, has (now) moved and the code is `REL_X` or `REL_Y`; then the first entry is an `EV_REL` tick of magnitude 1 and the last a sync |
| Gesture.AfterKey | src/main.py:95-110 | a key event that is not the button's trigger leaves it unchanged; its trigger sets `pressed` to the event value; a release resets the button; a press keeps the distances and `moved` |
| Gesture.KeyEmitted | src/main.py:99-106 | only a release of the button's trigger makes it write, and what it writes is empty or closed by a sync |
| Gesture.Absorbs | src/main.py:74-75 | a button absorbs only relative or key events that are not high-resolution codes (held with `freeze`, resp. its trigger) |
| Gesture.AfterEvent | src/main.py:69-110 | dispatch of one event to one button: high-resolution codes first, then relative, then key events, others untouched (stated through `KeyStep`, `RelStep`, `HiResIsInert`, `OtherPassesThrough`) |
| Gesture.Emitted | src/main.py:69-110 | what one button writes for one event, by the same dispatch (stated through `ReleaseVerdict`, `ScrollTickFirst`, `QuietEmissions`, `SoleEmitter`) |
| Gesture.Next | src/main.py:72-110 | one button after one event keeps its configuration (stated through `Advance`) |
| Gesture.Advance | src/main.py:72-110 | the mouse's button list after one event: the same number of buttons, in the same order, with unchanged configurations, button i being `Next` of button i (the loop has no `break`); the per-button effect is stated by `KeyStep`, `RelStep`, `HiResIsInert` and `OtherPassesThrough` |
| Gesture.QuietEmissions | src/main.py:72-110 | when no button writes anything for the event, the button loop writes nothing |
| Gesture.Emissions | src/main.py:72-110 | the writes of the first n buttons in button order; its properties are `QuietEmissions`, `SoleEmitter` and `EmissionsEndWithSync` |
| Gesture.SoleEmitter | src/main.py:72-110 | when only button i writes for the event, the button loop writes exactly what button i writes |
| Gesture.Forwarded | src/main.py:64-112 | `should_forward` after the loops: an event of a type other than relative or key is forwarded exactly when it is not a high-resolution code (the full rule is in `KeyStep` and `RelStep`) |
| Gesture.StepOutput | src/main.py:64-113 | everything written for one raw event: the buttons' writes, then `EventWrites` of the raw event when it is forwarded; stated through `StepEndsWithSync`, `HiResIsInert`, `OtherPassesThrough`, `KeyStep`, `RelStep`, `ReleaseVerdict`, `ScrollTickFirst` |
| Gesture.HiResIsInert | src/main.py:69-70 | a `REL_WHEEL_HI_RES`/`REL_HWHEEL_HI_RES` event, of any type, changes no button and writes nothing at all |
| Gesture.OtherPassesThrough | src/main.py:112-113 | an event that is neither relative nor a key changes no button and is forwarded exactly once, with nothing else written |
| Gesture.Run | src/main.py:62-63 | over a stream the mouse keeps its buttons, their number and their configurations |
| Gesture.RunOutput | src/main.py:62-113 | everything written over a finite stream, one step after the other; stated through `RunAppend` and `ReplayIsIdentical` |
| Gesture.ButtonRun | src/main.py:62-110 | one button over a stream: a released button whose trigger never comes ignores the whole stream, motion included; a stream ending with its release leaves it released |
| Engine.SwipeButton.constructor | src/main.py:32 | a button copy starts released: not held, no distance, not moved |
| Engine.SwipeButton.OnRel | src/main.py:73-92 | a button's handling of a relative event updates it as `Next` (which for a relative event is `AfterRel`), appends what `RelEmitted` says (tick only when held, scrolling and moved) and reports absorption exactly when held with `freeze` |
| Engine.SwipeButton.OnKey | src/main.py:95-110 | a button's handling of a key event updates it as `Next` (which for a key event is `AfterKey`), appends the release verdict's chord and reports absorption exactly when the code is its trigger |
| Engine.Mouse.constructor | src/main.py:32 | a mouse gets its own distinct, fresh button objects, one per configured button, in order, all released |
| Engine.Mouse.RelPass | src/main.py:71-92 | the loop over the buttons for a relative event updates every button as `Advance`, appends the buttons' writes in button order, and leaves `should_forward` true exactly when no button absorbed the event |
| Engine.Mouse.KeyPass | src/main.py:93-110 | the same for a key event |
| Engine.Mouse.HandleEvent | src/main.py:64-113 | one iteration of the event loop updates the buttons as `Advance` and appends the buttons' writes followed by the raw event exactly when it is forwarded (`StepOutput`) |
| Engine.Mouse.HandleEvents | src/main.py:62-113 | the event loop over a finite stream leaves the buttons as `Run` and appends `RunOutput` |
| GestureFacts.KeyStep | src/main.py:93-113 | a key event is forwarded exactly when it is no button's trigger. Every matching button (not just the first) gets `pressed` = the event value. On a release it is reset, otherwise its distances and `moved` are kept. Other buttons are untouched, and a key event that is nobody's trigger is forwarded once, with nothing else written |
| GestureFacts.RelStep | src/main.py:71-113 | a relative event is held back exactly when some held button has `freeze`, whatever the code, wheel included. Buttons not held are untouched. With no button held, the event is forwarded once, with nothing else written |
| GestureFacts.ReleaseVerdict | src/main.py:93-113 | on any mouse, the release of button i's trigger (no other button sharing it) is not forwarded and resets button i. All that is written is its verdict: the click chord when not moved (whatever `scroll` and `freeze` are), nothing when moved in scroll mode, otherwise the right/left chord when \|deltaX\| > \|deltaY\| and the down/up chord otherwise |
| GestureFacts.ScrollTickFirst | src/main.py:77-113 | on any mouse whose only held button i scrolls and has moved, an X (Y) motion writes a `REL_HWHEEL` (`REL_WHEEL`) tick first, then the raw motion unless button i has `freeze` |
| GestureFacts.EmissionsEndWithSync | src/main.py:72-110 | the writes of the button loop are empty or end with a sync |
| GestureFacts.StepEndsWithSync | src/main.py:64-113 | everything one raw event makes the mouse write is empty or closed by a sync |
| GestureFacts.RunIsPointwise | src/main.py:72-110 | buttons do not interact: after a stream, each button is where its own run alone leaves it |
| GestureFacts.RunAppend | src/main.py:62-63 | handling a stream in two parts leaves the same buttons and writes the same as handling it at once |
| GestureFacts.ReplayIsIdentical | src/main.py:62-63 | a stream that brings the buttons back to where they were writes the same thing again when replayed |
| GestureFacts.MovedSticky | src/main.py:77-92 | `moved` is never cleared before a release of the button's trigger |
| GestureFacts.HeldMotion | src/main.py:77-92 | while held, the distances are the motion totals. The button has moved exactly when it already had, or when some X/Y motion took that axis's distance strictly beyond `delta` |
| GestureFacts.TapIsClick | src/main.py:93-113 | press and release of a trigger with no motion writes exactly the click chord, forwards nothing and leaves the button released |
| GestureFacts.SwipeRightGesture | src/main.py:71-113 | press, an X motion d > max(0, delta), release on a non-scrolling button: the motion is forwarded unless `freeze` is set, then the swipe-right chord is written, and the button ends released |

## Left out

- `get_mouses` (src/main.py:10-35). It does device enumeration, capability
  checks and `grab()`, which are I/O. Its per-device `copy.deepcopy` of the
  configured buttons appears only as `Mouse.constructor` creating fresh
  button objects.
- `ungrab_mouses`, `cancel_tasks`, `run_tasks`, `task_detect_new_devices`
  and the `__main__` block (src/main.py:37-43, 115-173). These are asyncio
  task supervision, polling, logging and the restart loop. Concurrency
  between the per-mouse tasks is not modelled: each `HandleEvents` call is
  one mouse's loop in isolation. Interleavings of several mice on the shared
  device are not covered.
- The `config`, `mouse` and `virtual_device` modules are not part of this
  model. The button configuration is a parameter. A fresh button is taken to
  start released (`pressed` 0, distances 0, `moved` false).
- The real evdev `write`/`syn` side effects are left out; the device is the
  stream of entries written to it. The numeric codes of key names come from
  a table passed as a parameter.
- A key name missing from that table (a `KeyError` in the original, which
  ends that mouse's event loop) is excluded by the `KnowsConfig`/`Known` preconditions
  instead of being modelled as an error path.
- `KeyPressDeterminesKeys` assumes that no two names share a code. The real
  evdev table has aliases (several names for one code).
- The end of the `async for` stream is a finite event sequence. The
  infinite loop is modelled by its finite prefixes.

Behaviour modelled as the code has it, some of which may be surprising:

- A press (value 1, or 2 for autorepeat) only sets `pressed`: it keeps
  `deltaX`, `deltaY` and `moved`. Only a release resets them.
- A release with no prior press still produces a verdict.
- In scroll mode the wheel tick is written in addition to the raw motion, not
  instead of it; only `freeze` holds the motion back.
- `freeze` holds back every relative event while its button is held, wheel
  events included.
- The high-resolution test (src/main.py:69) looks at the code only. With
  Linux's numbering, key events with the codes of `KEY_0` (11) and
  `KEY_MINUS` (12) are also swallowed (`IsHiRes`).
