/**
  The event emitter: the virtual output device shared by every mouse, and the
  two ways the engine writes to it, `emulate_event` (one event, with its
  high-resolution wheel companion, then a sync) and `emulate_key_press` (a
  chorded press: key-downs in order, sync, key-ups in reverse order, sync).
*/
module Emitter {
  import opened Evdev

  /** The virtual device, seen as the stream of entries written to it. */
  class VirtualDevice {
    var log: seq<Entry>

    constructor ()
      ensures log == []
    {
      log := [];
    }

    method Write(evType: int, code: int, value: int)
      modifies this
      ensures log == old(log) + [Event(evType, code, value)]
    {
      log := log + [Event(evType, code, value)];
    }

    method Syn()
      modifies this
      ensures log == old(log) + [Sync]
    {
      log := log + [Sync];
    }
  }

  /** Value of the synthesized high-resolution companion of a wheel step. */
  function HiResValue(value: int): (r: int)
    ensures r == 120 || r == -120
    ensures r > 0 <==> value > 0
  {
    if value > 0 then 120 else -120
  }

  /** The entries `emulate_event(evType, code, value)` appends: the event first, then exactly one sync, last. */
  function EventWrites(evType: int, code: int, value: int): (r: seq<Entry>)
    ensures |r| >= 2 && r[0] == Event(evType, code, value)
    ensures r[|r| - 1] == Sync
    ensures forall i :: 0 <= i < |r| - 1 ==> r[i] != Sync
  {
    if code == REL_WHEEL then [Event(evType, code, value), Event(evType, REL_WHEEL_HI_RES, HiResValue(value)), Sync]
    else if code == REL_HWHEEL then [Event(evType, code, value), Event(evType, REL_HWHEEL_HI_RES, HiResValue(value)), Sync]
    else [Event(evType, code, value), Sync]
  }

  /**
    Between the event and the sync, `emulate_event` writes a ±120 companion
    exactly when the code is a wheel code, whatever the type.
  */
  lemma EventWritesShape(evType: int, code: int, value: int)
    ensures var r := EventWrites(evType, code, value);
      && (code == REL_WHEEL ==> r == [Event(evType, code, value), Event(evType, REL_WHEEL_HI_RES, HiResValue(value)), Sync])
      && (code == REL_HWHEEL ==> r == [Event(evType, code, value), Event(evType, REL_HWHEEL_HI_RES, HiResValue(value)), Sync])
      && (code != REL_WHEEL && code != REL_HWHEEL ==> r == [Event(evType, code, value), Sync])
  {
  }

  method EmulateEvent(vd: VirtualDevice, evType: int, code: int, value: int)
    modifies vd
    ensures vd.log == old(vd.log) + EventWrites(evType, code, value)
  {
    vd.Write(evType, code, value);
    if code == REL_WHEEL {
      vd.Write(evType, REL_WHEEL_HI_RES, HiResValue(value));
    }
    if code == REL_HWHEEL {
      vd.Write(evType, REL_HWHEEL_HI_RES, HiResValue(value));
    }
    vd.Syn();
  }

  /** One `EV_KEY` write with the given value per key, in the order of `keys` (positions in `PressesAt`). */
  function Presses(codes: CodeTable, keys: seq<string>, value: int): (r: seq<Entry>)
    requires Known(codes, keys)
    ensures |r| == |keys|
  {
    if keys == [] then []
    else Presses(codes, keys[..|keys| - 1], value) + [Event(EV_KEY, codes[keys[|keys| - 1]], value)]
  }

  /** The i-th write of `Presses` is for the i-th key, and there is one write per key. */
  lemma {:induction false} PressesAt(codes: CodeTable, keys: seq<string>, value: int)
    requires Known(codes, keys)
    ensures forall i :: 0 <= i < |keys| ==> Presses(codes, keys, value)[i] == Event(EV_KEY, codes[keys[i]], value)
  {
    if keys != [] {
      PressesAt(codes, keys[..|keys| - 1], value);
    }
  }

  /** `reversed(keys)`. */
  function Reversed(keys: seq<string>): (r: seq<string>)
    ensures |r| == |keys|
    ensures forall i :: 0 <= i < |keys| ==> r[i] == keys[|keys| - 1 - i]
    ensures forall k :: k in r ==> k in keys
  {
    if keys == [] then []
    else [keys[|keys| - 1]] + Reversed(keys[..|keys| - 1])
  }

  /** The entries `emulate_key_press(keys)` appends: two batches of one write per key, each closed by a sync. */
  function KeyPressWrites(codes: CodeTable, keys: seq<string>): (r: seq<Entry>)
    requires Known(codes, keys)
    ensures |r| == 2 * |keys| + 2
    ensures r[|keys|] == Sync && r[2 * |keys| + 1] == Sync
  {
    Presses(codes, keys, 1) + [Sync] + Presses(codes, Reversed(keys), 0) + [Sync]
  }

  /**
    A chorded press is 2·|keys| + 2 entries: the key-downs in list order, a
    sync, the key-ups in reverse order, a sync. An empty list gives two syncs.
  */
  lemma KeyPressLayout(codes: CodeTable, keys: seq<string>)
    requires Known(codes, keys)
    ensures var r, n := KeyPressWrites(codes, keys), |keys|;
      && |r| == 2 * n + 2
      && (forall i :: 0 <= i < n ==> r[i] == Event(EV_KEY, codes[keys[i]], 1))
      && r[n] == Sync
      && (forall j :: n < j < 2 * n + 1 ==> r[j] == Event(EV_KEY, codes[keys[2 * n - j]], 0))
      && r[2 * n + 1] == Sync
  {
    var n := |keys|;
    PressesAt(codes, keys, 1);
    PressesAt(codes, Reversed(keys), 0);
    var downs, ups := Presses(codes, keys, 1), Presses(codes, Reversed(keys), 0);
    var r := downs + [Sync] + ups + [Sync];
    forall j | n < j < 2 * n + 1 ensures r[j] == Event(EV_KEY, codes[keys[2 * n - j]], 0) {
      assert r[j] == ups[j - n - 1];
    }
  }

  /**
    When no two names share a code, the chord written determines the key list:
    two lists that produce the same entries are the same list.
  */
  lemma KeyPressDeterminesKeys(codes: CodeTable, keys1: seq<string>, keys2: seq<string>)
    requires Injective(codes) && Known(codes, keys1) && Known(codes, keys2)
    requires KeyPressWrites(codes, keys1) == KeyPressWrites(codes, keys2)
    ensures keys1 == keys2
  {
    KeyPressLayout(codes, keys1);
    KeyPressLayout(codes, keys2);
    var r := KeyPressWrites(codes, keys1);
    assert |keys1| == |keys2|;
    forall i | 0 <= i < |keys1| ensures keys1[i] == keys2[i] {
      assert r[i] == Event(EV_KEY, codes[keys1[i]], 1) == Event(EV_KEY, codes[keys2[i]], 1);
      assert keys1[i] in codes && keys2[i] in codes;
    }
  }

  /** One loop of `emulate_key_press`: a write with `value` for each key, in order, and no sync. */
  method WriteKeys(vd: VirtualDevice, codes: CodeTable, keys: seq<string>, value: int)
    requires Known(codes, keys)
    modifies vd
    ensures vd.log == old(vd.log) + Presses(codes, keys, value)
  {
    for i := 0 to |keys|
      invariant vd.log == old(vd.log) + Presses(codes, keys[..i], value)
    {
      assert keys[..i + 1][..i] == keys[..i];
      vd.Write(EV_KEY, codes[keys[i]], value);
    }
    assert keys[..|keys|] == keys;
  }

  method EmulateKeyPress(vd: VirtualDevice, codes: CodeTable, keys: seq<string>)
    requires Known(codes, keys)
    modifies vd
    ensures vd.log == old(vd.log) + KeyPressWrites(codes, keys)
  {
    WriteKeys(vd, codes, keys, 1);
    vd.Syn();
    WriteKeys(vd, codes, Reversed(keys), 0);
    vd.Syn();
  }
}
