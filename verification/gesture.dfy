/**
  The gesture recognizer as values: what one raw event does to the live state
  of one swipe button, what that button makes the emitter write, whether it
  keeps the raw event from being forwarded, and the same for the ordered list
  of swipe buttons of one mouse, one event at a time and over a finite stream.
  The classes of module Engine are proved to do exactly this.
*/
module Gesture {
  import opened Evdev
  import opened Emitter

  /** The configured part of a swipe button; never changed by the engine. */
  datatype ButtonConfig = ButtonConfig(
    button: string,          // name of the trigger key, e.g. "BTN_SIDE"
    delta: int,              // motion threshold
    scroll: bool,            // turn motion into scroll ticks while held
    freeze: bool,            // hold back every relative event while held
    click: seq<string>,
    swipeUp: seq<string>,
    swipeDown: seq<string>,
    swipeLeft: seq<string>,
    swipeRight: seq<string>)

  /**
    The live part of a swipe button. `pressed` is the last raw value of the
    trigger key (0 released, 1 pressed, 2 autorepeat); the button is held
    while it is non-zero.
  */
  datatype Live = Live(pressed: int, deltaX: int, deltaY: int, moved: bool)

  datatype Button = Button(config: ButtonConfig, live: Live)

  /** What a release is judged to be. */
  datatype Verdict = Click | SwipeUp | SwipeDown | SwipeLeft | SwipeRight

  datatype Option<T> = None | Some(value: T)

  /** Live state of a button that is not held and has not moved. */
  const Released: Live := Live(0, 0, 0, false)

  function Abs(x: int): int
  {
    if x < 0 then -x else x
  }

  /**
    The device's own high-resolution wheel codes. The test looks at the code
    only, so with Linux's numbering it also matches the key codes of KEY_0 and
    KEY_MINUS.
  */
  predicate IsHiRes(code: int)
    ensures IsHiRes(code) ==> code != REL_X && code != REL_Y && code != REL_WHEEL && code != REL_HWHEEL
  {
    code == REL_WHEEL_HI_RES || code == REL_HWHEEL_HI_RES
  }

  /** Every name the button's configuration uses has a key code. */
  predicate KnowsConfig(codes: CodeTable, cfg: ButtonConfig)
  {
    && cfg.button in codes
    && Known(codes, cfg.click)
    && Known(codes, cfg.swipeUp)
    && Known(codes, cfg.swipeDown)
    && Known(codes, cfg.swipeLeft)
    && Known(codes, cfg.swipeRight)
  }

  predicate KnowsAll(codes: CodeTable, bs: seq<Button>)
  {
    forall i :: 0 <= i < |bs| ==> KnowsConfig(codes, bs[i].config)
  }

  // ---------------------------------------------------------------------------
  // Direction and sign selections

  /** Horizontal scroll tick for an X motion: the motion's sign. */
  function HorizontalTick(value: int): (r: int)
    ensures r == 1 || r == -1
    ensures r > 0 <==> value > 0
  {
    if value > 0 then 1 else -1
  }

  /** Vertical scroll tick for a Y motion: against the motion's sign. */
  function VerticalTick(value: int): (r: int)
    ensures r == 1 || r == -1
    ensures r > 0 <==> value <= 0
  {
    if value > 0 then -1 else 1
  }

  /**
    The swipe a moved, non-scrolling button reports on release: horizontal only
    when the X distance strictly dominates, so a tie goes to the vertical axis.
  */
  function Direction(deltaX: int, deltaY: int): (r: Verdict)
    ensures r == SwipeRight <==> Abs(deltaX) > Abs(deltaY) && deltaX > 0
    ensures r == SwipeLeft <==> Abs(deltaX) > Abs(deltaY) && deltaX <= 0
    ensures r == SwipeDown <==> Abs(deltaX) <= Abs(deltaY) && deltaY > 0
    ensures r == SwipeUp <==> Abs(deltaX) <= Abs(deltaY) && deltaY <= 0
    ensures r != Click
  {
    if Abs(deltaX) > Abs(deltaY) then
      if deltaX > 0 then SwipeRight else SwipeLeft
    else
      if deltaY > 0 then SwipeDown else SwipeUp
  }

  /** The verdict at release, if any: no motion is a click; a scrolling button that moved reports nothing. */
  function Judge(cfg: ButtonConfig, live: Live): (r: Option<Verdict>)
    ensures r == Some(Click) <==> !live.moved
    ensures r == None <==> live.moved && cfg.scroll
    ensures live.moved && !cfg.scroll ==> r == Some(Direction(live.deltaX, live.deltaY))
  {
    if !live.moved then Some(Click)
    else if !cfg.scroll then Some(Direction(live.deltaX, live.deltaY))
    else None
  }

  function KeysOf(cfg: ButtonConfig, v: Verdict): seq<string>
  {
    match v
    case Click => cfg.click
    case SwipeUp => cfg.swipeUp
    case SwipeDown => cfg.swipeDown
    case SwipeLeft => cfg.swipeLeft
    case SwipeRight => cfg.swipeRight
  }

  // ---------------------------------------------------------------------------
  // One button, one relative event (type EV_REL, not a high-resolution code)

  /**
    A relative event moves the distances of a held button only, on the event's
    own axis, and sets `moved` (never clears it) once that distance is
    strictly beyond `delta`.
  */
  function AfterRel(cfg: ButtonConfig, live: Live, ev: InputEvent): (r: Live)
    ensures r.pressed == live.pressed
    ensures r.deltaX == live.deltaX + if live.pressed != 0 && ev.code == REL_X then ev.value else 0
    ensures r.deltaY == live.deltaY + if live.pressed != 0 && ev.code == REL_Y then ev.value else 0
    ensures r.moved <==> || live.moved
                         || (live.pressed != 0 && ev.code == REL_X && Abs(r.deltaX) > cfg.delta)
                         || (live.pressed != 0 && ev.code == REL_Y && Abs(r.deltaY) > cfg.delta)
  {
    if live.pressed == 0 then live
    else if ev.code == REL_X then
      var dx := live.deltaX + ev.value;
      live.(deltaX := dx, moved := live.moved || Abs(dx) > cfg.delta)
    else if ev.code == REL_Y then
      var dy := live.deltaY + ev.value;
      live.(deltaY := dy, moved := live.moved || Abs(dy) > cfg.delta)
    else live
  }

  /** A held, scrolling button that has moved writes one wheel tick of magnitude 1 per X or Y motion. */
  function RelEmitted(cfg: ButtonConfig, live: Live, ev: InputEvent): (r: seq<Entry>)
    ensures r != [] ==> live.pressed != 0 && cfg.scroll && AfterRel(cfg, live, ev).moved
    ensures r != [] <==> live.pressed != 0 && cfg.scroll && AfterRel(cfg, live, ev).moved && (ev.code == REL_X || ev.code == REL_Y)
    ensures r != [] ==> r[0].Event? && r[0].evType == EV_REL && (r[0].value == 1 || r[0].value == -1)
    ensures r == [] || r[|r| - 1] == Sync
  {
    if live.pressed != 0 && cfg.scroll && AfterRel(cfg, live, ev).moved then
      if ev.code == REL_X then EventWrites(EV_REL, REL_HWHEEL, HorizontalTick(ev.value))
      else if ev.code == REL_Y then EventWrites(EV_REL, REL_WHEEL, VerticalTick(ev.value))
      else []
    else []
  }

  // ---------------------------------------------------------------------------
  // One button, one key event (type EV_KEY, not a high-resolution code)

  /**
    A key event changes a button only when it is the button's trigger: `pressed`
    becomes the event value, a release resets the button, and a press keeps
    its distances and `moved`.
  */
  function AfterKey(codes: CodeTable, cfg: ButtonConfig, live: Live, ev: InputEvent): (r: Live)
    requires cfg.button in codes
    ensures ev.code != codes[cfg.button] ==> r == live
    ensures ev.code == codes[cfg.button] ==> r.pressed == ev.value
    ensures ev.code == codes[cfg.button] && ev.value == 0 ==> r == Released
    ensures ev.value != 0 ==> r.deltaX == live.deltaX && r.deltaY == live.deltaY && r.moved == live.moved
  {
    if ev.code != codes[cfg.button] then live
    else if ev.value == 0 then Released
    else live.(pressed := ev.value)
  }

  /** Only the release of a button's trigger makes it write, and what it writes is a chord closed by a sync. */
  function KeyEmitted(codes: CodeTable, cfg: ButtonConfig, live: Live, ev: InputEvent): (r: seq<Entry>)
    requires KnowsConfig(codes, cfg)
    ensures r != [] ==> ev.code == codes[cfg.button] && ev.value == 0
    ensures r == [] || r[|r| - 1] == Sync
  {
    if ev.code == codes[cfg.button] && ev.value == 0 then
      match Judge(cfg, live)
      case Some(v) => KeyPressWrites(codes, KeysOf(cfg, v))
      case None => []
    else []
  }

  // ---------------------------------------------------------------------------
  // One button, any event

  function AfterEvent(codes: CodeTable, cfg: ButtonConfig, live: Live, ev: InputEvent): Live
    requires cfg.button in codes
  {
    if IsHiRes(ev.code) then live
    else if ev.evType == EV_REL then AfterRel(cfg, live, ev)
    else if ev.evType == EV_KEY then AfterKey(codes, cfg, live, ev)
    else live
  }

  function Emitted(codes: CodeTable, cfg: ButtonConfig, live: Live, ev: InputEvent): seq<Entry>
    requires KnowsConfig(codes, cfg)
  {
    if IsHiRes(ev.code) then []
    else if ev.evType == EV_REL then RelEmitted(cfg, live, ev)
    else if ev.evType == EV_KEY then KeyEmitted(codes, cfg, live, ev)
    else []
  }

  /** The button keeps the raw event from being forwarded. */
  predicate Absorbs(codes: CodeTable, cfg: ButtonConfig, live: Live, ev: InputEvent)
    requires cfg.button in codes
    ensures Absorbs(codes, cfg, live, ev) ==> !IsHiRes(ev.code) && (ev.evType == EV_REL || ev.evType == EV_KEY)
  {
    && !IsHiRes(ev.code)
    && if ev.evType == EV_REL then live.pressed != 0 && cfg.freeze
       else ev.evType == EV_KEY && ev.code == codes[cfg.button]
  }

  function Next(codes: CodeTable, b: Button, ev: InputEvent): Button
    requires b.config.button in codes
  {
    Button(b.config, AfterEvent(codes, b.config, b.live, ev))
  }

  // ---------------------------------------------------------------------------
  // One mouse (its ordered swipe buttons), one event

  /** Every swipe button takes the event; none is skipped and none stops the others. */
  function Advance(codes: CodeTable, bs: seq<Button>, ev: InputEvent): (r: seq<Button>)
    requires KnowsAll(codes, bs)
    ensures |r| == |bs| && KnowsAll(codes, r)
    ensures forall i :: 0 <= i < |bs| ==> r[i].config == bs[i].config
  {
    seq(|bs|, i requires 0 <= i < |bs| => Next(codes, bs[i], ev))
  }

  /** What the first `n` buttons write, in button order. */
  function Emissions(codes: CodeTable, bs: seq<Button>, n: nat, ev: InputEvent): seq<Entry>
    requires KnowsAll(codes, bs) && n <= |bs|
  {
    if n == 0 then []
    else Emissions(codes, bs, n - 1, ev) + Emitted(codes, bs[n - 1].config, bs[n - 1].live, ev)
  }

  /** When none of the first `n` buttons writes anything for `ev`, together they write nothing. */
  lemma {:induction false} QuietEmissions(codes: CodeTable, bs: seq<Button>, n: nat, ev: InputEvent)
    requires KnowsAll(codes, bs) && n <= |bs|
    requires forall i :: 0 <= i < n ==> Emitted(codes, bs[i].config, bs[i].live, ev) == []
    ensures Emissions(codes, bs, n, ev) == []
  {
    if n != 0 {
      QuietEmissions(codes, bs, n - 1, ev);
      var last := Emitted(codes, bs[n - 1].config, bs[n - 1].live, ev);
      assert last == [];
      assert Emissions(codes, bs, n, ev) == Emissions(codes, bs, n - 1, ev) + last;
    }
  }

  /**
    When button `i` is the only one that writes anything for `ev`, the first
    `n` buttons together write what button `i` writes if it is among them, and
    nothing otherwise.
  */
  lemma {:induction false} SoleEmitter(codes: CodeTable, bs: seq<Button>, n: nat, ev: InputEvent, i: nat)
    requires KnowsAll(codes, bs) && n <= |bs| && i < |bs|
    requires forall j :: 0 <= j < |bs| && j != i ==> Emitted(codes, bs[j].config, bs[j].live, ev) == []
    ensures Emissions(codes, bs, n, ev) == if i < n then Emitted(codes, bs[i].config, bs[i].live, ev) else []
  {
    if n != 0 {
      SoleEmitter(codes, bs, n - 1, ev, i);
      var last := Emitted(codes, bs[n - 1].config, bs[n - 1].live, ev);
      assert Emissions(codes, bs, n, ev) == Emissions(codes, bs, n - 1, ev) + last;
      if n - 1 == i {
        assert Emissions(codes, bs, n - 1, ev) == [];
      } else {
        assert last == [];
        assert Emissions(codes, bs, n, ev) == Emissions(codes, bs, n - 1, ev);
      }
    }
  }

  /** Regrouping of appended writes, used by the loops of module Engine. */
  lemma Assoc<T>(a: seq<T>, b: seq<T>, c: seq<T>)
    ensures a + b + c == a + (b + c)
  {
  }

  /** The raw event is forwarded when no button absorbs it; events of other types always are. */
  predicate Forwarded(codes: CodeTable, bs: seq<Button>, ev: InputEvent)
    requires KnowsAll(codes, bs)
    ensures ev.evType != EV_REL && ev.evType != EV_KEY ==> (Forwarded(codes, bs, ev) <==> !IsHiRes(ev.code))
  {
    && !IsHiRes(ev.code)
    && forall i :: 0 <= i < |bs| ==> !Absorbs(codes, bs[i].config, bs[i].live, ev)
  }

  /** Everything written for one raw event: the buttons' writes, then the raw event if forwarded. */
  function StepOutput(codes: CodeTable, bs: seq<Button>, ev: InputEvent): seq<Entry>
    requires KnowsAll(codes, bs)
  {
    Emissions(codes, bs, |bs|, ev)
    + if Forwarded(codes, bs, ev) then EventWrites(ev.evType, ev.code, ev.value) else []
  }

  /**
    A high-resolution wheel event, whatever its type, changes no button,
    makes nothing be written and is not forwarded.
  */
  lemma {:induction false} HiResIsInert(codes: CodeTable, bs: seq<Button>, ev: InputEvent)
    requires KnowsAll(codes, bs) && IsHiRes(ev.code)
    ensures Advance(codes, bs, ev) == bs
    ensures StepOutput(codes, bs, ev) == []
  {
    QuietEmissions(codes, bs, |bs|, ev);
  }

  /**
    An event that is neither relative nor a key (nor a high-resolution code)
    changes no button and is forwarded as it is, exactly once.
  */
  lemma {:induction false} OtherPassesThrough(codes: CodeTable, bs: seq<Button>, ev: InputEvent)
    requires KnowsAll(codes, bs) && !IsHiRes(ev.code) && ev.evType != EV_REL && ev.evType != EV_KEY
    ensures Advance(codes, bs, ev) == bs
    ensures StepOutput(codes, bs, ev) == EventWrites(ev.evType, ev.code, ev.value)
  {
    QuietEmissions(codes, bs, |bs|, ev);
  }

  // ---------------------------------------------------------------------------
  // One mouse, a finite stream of events

  function Run(codes: CodeTable, bs: seq<Button>, evs: seq<InputEvent>): (r: seq<Button>)
    requires KnowsAll(codes, bs)
    ensures |r| == |bs| && KnowsAll(codes, r)
    ensures forall i :: 0 <= i < |bs| ==> r[i].config == bs[i].config
  {
    if evs == [] then bs
    else Advance(codes, Run(codes, bs, evs[..|evs| - 1]), evs[|evs| - 1])
  }

  /** Everything written over a stream. */
  function RunOutput(codes: CodeTable, bs: seq<Button>, evs: seq<InputEvent>): seq<Entry>
    requires KnowsAll(codes, bs)
  {
    if evs == [] then []
    else
      var before := evs[..|evs| - 1];
      RunOutput(codes, bs, before) + StepOutput(codes, Run(codes, bs, before), evs[|evs| - 1])
  }

  /** A stream followed by one more event: the last step comes after the rest. */
  lemma RunSnoc(codes: CodeTable, bs: seq<Button>, evs: seq<InputEvent>, ev: InputEvent)
    requires KnowsAll(codes, bs)
    ensures Run(codes, bs, evs + [ev]) == Advance(codes, Run(codes, bs, evs), ev)
    ensures RunOutput(codes, bs, evs + [ev]) == RunOutput(codes, bs, evs) + StepOutput(codes, Run(codes, bs, evs), ev)
  {
    assert (evs + [ev])[..|evs|] == evs;
  }

  /** The stream loop after `i + 1` events: the `i`-th event handled after the first `i`. */
  lemma RunStep(codes: CodeTable, bs: seq<Button>, evs: seq<InputEvent>, i: nat)
    requires KnowsAll(codes, bs) && i < |evs|
    ensures Run(codes, bs, evs[..i + 1]) == Advance(codes, Run(codes, bs, evs[..i]), evs[i])
    ensures RunOutput(codes, bs, evs[..i + 1]) == RunOutput(codes, bs, evs[..i]) + StepOutput(codes, Run(codes, bs, evs[..i]), evs[i])
  {
    assert evs[..i + 1] == evs[..i] + [evs[i]];
    RunSnoc(codes, bs, evs[..i], evs[i]);
  }

  /** The release of the trigger key of the button configured as `cfg`. */
  predicate IsRelease(codes: CodeTable, cfg: ButtonConfig, ev: InputEvent)
    requires cfg.button in codes
  {
    ev.evType == EV_KEY && !IsHiRes(ev.code) && ev.code == codes[cfg.button] && ev.value == 0
  }

  /**
    The live state of one button over a stream of events. A released button
    whose trigger key never comes ignores the whole stream, motion included;
    a stream that ends with its release leaves it released.
  */
  function ButtonRun(codes: CodeTable, cfg: ButtonConfig, live: Live, evs: seq<InputEvent>): (r: Live)
    requires cfg.button in codes
    ensures live.pressed == 0 && (forall k :: 0 <= k < |evs| ==> !(evs[k].evType == EV_KEY && evs[k].code == codes[cfg.button])) ==> r == live
    ensures evs != [] && IsRelease(codes, cfg, evs[|evs| - 1]) ==> r == Released
  {
    if evs == [] then live
    else AfterEvent(codes, cfg, ButtonRun(codes, cfg, live, evs[..|evs| - 1]), evs[|evs| - 1])
  }
}
