/**
  The per-mouse event loop: swipe buttons as objects whose live fields are
  updated in place, a mouse holding its own list of them, and the handler
  that takes one raw event at a time and writes to the shared virtual device.
  Each method is proved to do what module Gesture says.
*/
module Engine {
  import opened Evdev
  import opened Emitter
  import opened Gesture

  class SwipeButton {
    const config: ButtonConfig
    var pressed: int
    var deltaX: int
    var deltaY: int
    var moved: bool

    /** A fresh copy of a configured button, released and not moved. */
    constructor (cfg: ButtonConfig)
      ensures Value() == Button(cfg, Released)
    {
      config := cfg;
      pressed, deltaX, deltaY, moved := 0, 0, 0, false;
    }

    function Value(): Button
      reads this
    {
      Button(config, Live(pressed, deltaX, deltaY, moved))
    }

    /** The body of the per-button loop for a relative event. */
    method OnRel(vd: VirtualDevice, codes: CodeTable, ev: InputEvent) returns (absorbed: bool)
      requires ev.evType == EV_REL && !IsHiRes(ev.code) && KnowsConfig(codes, config)
      modifies this, vd
      ensures Value() == Next(codes, old(Value()), ev)
      ensures vd.log == old(vd.log) + Emitted(codes, config, old(Value().live), ev)
      ensures absorbed == Absorbs(codes, config, old(Value().live), ev)
    {
      absorbed := false;
      if pressed != 0 {
        if config.freeze {
          absorbed := true;
        }
        if ev.code == REL_X {
          deltaX := deltaX + ev.value;
          if Abs(deltaX) > config.delta && !moved {
            moved := true;
          }
          if config.scroll && moved {
            EmulateEvent(vd, EV_REL, REL_HWHEEL, HorizontalTick(ev.value));
          }
        } else if ev.code == REL_Y {
          deltaY := deltaY + ev.value;
          if Abs(deltaY) > config.delta && !moved {
            moved := true;
          }
          if config.scroll && moved {
            EmulateEvent(vd, EV_REL, REL_WHEEL, VerticalTick(ev.value));
          }
        }
      }
    }

    /** The body of the per-button loop for a key event. */
    method OnKey(vd: VirtualDevice, codes: CodeTable, ev: InputEvent) returns (absorbed: bool)
      requires ev.evType == EV_KEY && !IsHiRes(ev.code) && KnowsConfig(codes, config)
      modifies this, vd
      ensures Value() == Next(codes, old(Value()), ev)
      ensures vd.log == old(vd.log) + Emitted(codes, config, old(Value().live), ev)
      ensures absorbed == Absorbs(codes, config, old(Value().live), ev)
    {
      absorbed := false;
      if ev.code == codes[config.button] {
        absorbed := true;
        pressed := ev.value;
        if pressed == 0 {
          if !moved {
            EmulateKeyPress(vd, codes, config.click);
          } else if !config.scroll {
            if Abs(deltaX) > Abs(deltaY) {
              EmulateKeyPress(vd, codes, if deltaX > 0 then config.swipeRight else config.swipeLeft);
            } else {
              EmulateKeyPress(vd, codes, if deltaY > 0 then config.swipeDown else config.swipeUp);
            }
          }
          deltaX := 0;
          deltaY := 0;
          moved := false;
        }
      }
    }
  }

  class Mouse {
    const swipeButtons: seq<SwipeButton>

    /** Each mouse owns its own button objects. */
    ghost predicate Valid()
    {
      forall i, j :: 0 <= i < j < |swipeButtons| ==> swipeButtons[i] != swipeButtons[j]
    }

    ghost function Buttons(): (r: seq<Button>)
      reads swipeButtons
      ensures |r| == |swipeButtons|
      ensures forall i :: 0 <= i < |swipeButtons| ==> r[i] == swipeButtons[i].Value()
    {
      seq(|swipeButtons|, i reads swipeButtons requires 0 <= i < |swipeButtons| => swipeButtons[i].Value())
    }

    /** A mouse gets its own copy of every configured button, in configuration order. */
    constructor (configs: seq<ButtonConfig>)
      ensures Valid()
      ensures forall b :: b in swipeButtons ==> fresh(b)
      ensures Buttons() == seq(|configs|, i requires 0 <= i < |configs| => Button(configs[i], Released))
    {
      var bs: seq<SwipeButton> := [];
      for i := 0 to |configs|
        invariant |bs| == i
        invariant forall j :: 0 <= j < i ==> fresh(bs[j]) && bs[j].Value() == Button(configs[j], Released)
        invariant forall j, k :: 0 <= j < k < i ==> bs[j] != bs[k]
      {
        var b := new SwipeButton(configs[i]);
        bs := bs + [b];
      }
      swipeButtons := bs;
    }

    /** The loop over the swipe buttons for a relative event; the result is `should_forward`. */
    method RelPass(vd: VirtualDevice, codes: CodeTable, ev: InputEvent) returns (forward: bool)
      requires Valid() && KnowsAll(codes, Buttons())
      requires ev.evType == EV_REL && !IsHiRes(ev.code)
      modifies swipeButtons, vd
      ensures Buttons() == Advance(codes, old(Buttons()), ev)
      ensures vd.log == old(vd.log) + Emissions(codes, old(Buttons()), |swipeButtons|, ev)
      ensures forward == Forwarded(codes, old(Buttons()), ev)
    {
      ghost var bs := Buttons();
      forward := true;
      for i := 0 to |swipeButtons|
        invariant forall j :: 0 <= j < i ==> swipeButtons[j].Value() == Next(codes, bs[j], ev)
        invariant forall j :: i <= j < |swipeButtons| ==> swipeButtons[j].Value() == bs[j]
        invariant vd.log == old(vd.log) + Emissions(codes, bs, i, ev)
        invariant forward == forall j :: 0 <= j < i ==> !Absorbs(codes, bs[j].config, bs[j].live, ev)
      {
        assert Emissions(codes, bs, i + 1, ev) == Emissions(codes, bs, i, ev) + Emitted(codes, bs[i].config, bs[i].live, ev);
        var absorbed := swipeButtons[i].OnRel(vd, codes, ev);
        Assoc(old(vd.log), Emissions(codes, bs, i, ev), Emitted(codes, bs[i].config, bs[i].live, ev));
        if absorbed {
          forward := false;
        }
      }
    }

    /** The loop over the swipe buttons for a key event; the result is `should_forward`. */
    method KeyPass(vd: VirtualDevice, codes: CodeTable, ev: InputEvent) returns (forward: bool)
      requires Valid() && KnowsAll(codes, Buttons())
      requires ev.evType == EV_KEY && !IsHiRes(ev.code)
      modifies swipeButtons, vd
      ensures Buttons() == Advance(codes, old(Buttons()), ev)
      ensures vd.log == old(vd.log) + Emissions(codes, old(Buttons()), |swipeButtons|, ev)
      ensures forward == Forwarded(codes, old(Buttons()), ev)
    {
      ghost var bs := Buttons();
      forward := true;
      for i := 0 to |swipeButtons|
        invariant forall j :: 0 <= j < i ==> swipeButtons[j].Value() == Next(codes, bs[j], ev)
        invariant forall j :: i <= j < |swipeButtons| ==> swipeButtons[j].Value() == bs[j]
        invariant vd.log == old(vd.log) + Emissions(codes, bs, i, ev)
        invariant forward == forall j :: 0 <= j < i ==> !Absorbs(codes, bs[j].config, bs[j].live, ev)
      {
        assert Emissions(codes, bs, i + 1, ev) == Emissions(codes, bs, i, ev) + Emitted(codes, bs[i].config, bs[i].live, ev);
        var absorbed := swipeButtons[i].OnKey(vd, codes, ev);
        Assoc(old(vd.log), Emissions(codes, bs, i, ev), Emitted(codes, bs[i].config, bs[i].live, ev));
        if absorbed {
          forward := false;
        }
      }
    }

    /** One iteration of the event loop: the raw event `ev` read from this mouse. */
    method HandleEvent(vd: VirtualDevice, codes: CodeTable, ev: InputEvent)
      requires Valid() && KnowsAll(codes, Buttons())
      modifies swipeButtons, vd
      ensures Buttons() == Advance(codes, old(Buttons()), ev)
      ensures vd.log == old(vd.log) + StepOutput(codes, old(Buttons()), ev)
    {
      ghost var bs := Buttons();
      var forward := true;
      if IsHiRes(ev.code) {
        forward := false;
        HiResIsInert(codes, bs, ev);
      } else if ev.evType == EV_REL {
        forward := RelPass(vd, codes, ev);
      } else if ev.evType == EV_KEY {
        forward := KeyPass(vd, codes, ev);
      } else {
        OtherPassesThrough(codes, bs, ev);
      }
      if forward {
        EmulateEvent(vd, ev.evType, ev.code, ev.value);
        Assoc(old(vd.log), Emissions(codes, bs, |bs|, ev), EventWrites(ev.evType, ev.code, ev.value));
      }
    }

    /** The event loop over a finite stream of raw events. */
    method HandleEvents(vd: VirtualDevice, codes: CodeTable, evs: seq<InputEvent>)
      requires Valid() && KnowsAll(codes, Buttons())
      modifies swipeButtons, vd
      ensures Buttons() == Run(codes, old(Buttons()), evs)
      ensures vd.log == old(vd.log) + RunOutput(codes, old(Buttons()), evs)
    {
      ghost var bs := Buttons();
      ghost var start := vd.log;
      for i := 0 to |evs|
        invariant Buttons() == Run(codes, bs, evs[..i])
        invariant vd.log == start + RunOutput(codes, bs, evs[..i])
      {
        RunStep(codes, bs, evs, i);
        ghost var cur, done := Run(codes, bs, evs[..i]), RunOutput(codes, bs, evs[..i]);
        HandleEvent(vd, codes, evs[i]);
        Assoc(start, done, StepOutput(codes, cur, evs[i]));
      }
      assert evs[..|evs|] == evs;
    }
  }
}
