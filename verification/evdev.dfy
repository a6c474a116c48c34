/**
  The vocabulary of the Linux input subsystem that the gesture engine uses:
  event types and relative-axis codes (with the values of
  linux/input-event-codes.h), the raw events read from a grabbed mouse, the
  entries written to the virtual output device, and the table from key names
  to key codes.
*/
module Evdev {

  // Event types.
  const EV_KEY: int := 0x01
  const EV_REL: int := 0x02

  // Relative-axis codes.
  const REL_X: int := 0x00
  const REL_Y: int := 0x01
  const REL_HWHEEL: int := 0x06
  const REL_WHEEL: int := 0x08
  const REL_WHEEL_HI_RES: int := 0x0b
  const REL_HWHEEL_HI_RES: int := 0x0c

  /** One raw event `(type, code, value)` as read from a physical device. */
  datatype InputEvent = InputEvent(evType: int, code: int, value: int)

  /**
    One entry of the virtual device's outgoing stream: a `write(type, code,
    value)` or a `syn()` barrier.
  */
  datatype Entry = Event(evType: int, code: int, value: int) | Sync

  /** The table from key and button names (`"KEY_LEFTCTRL"`, `"BTN_SIDE"`) to key codes. */
  type CodeTable = map<string, int>

  /** Every name in `keys` has a code in the table. */
  predicate Known(codes: CodeTable, keys: seq<string>)
  {
    forall k :: k in keys ==> k in codes
  }

  /** No two names share a code (the real table has aliases, so this is a hypothesis where used). */
  ghost predicate Injective(codes: CodeTable)
  {
    forall a, b :: a in codes && b in codes && codes[a] == codes[b] ==> a == b
  }
}
