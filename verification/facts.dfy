/**
  What the gesture recognizer promises, proved about the value-level model of
  module Gesture (and so, through the contracts of module Engine, about the
  event loop itself): which events are forwarded, what a trigger key does to
  every matching button, the release verdicts, the motion threshold, the order
  of scroll ticks and forwarded motion, and how runs over streams compose.
*/
module GestureFacts {
  import opened Evdev
  import opened Emitter
  import opened Gesture

  // ---------------------------------------------------------------------------
  // One event, one mouse

  /**
    A key event (not a high-resolution code) is forwarded exactly when it is no
    button's trigger key. Every button whose trigger it is takes the event
    value as `pressed`; on a release it is reset, otherwise its motion
    bookkeeping is kept. Other buttons are untouched, and a key event that is
    nobody's trigger is forwarded as it is, with nothing else written.
  */
  lemma {:induction false} KeyStep(codes: CodeTable, bs: seq<Button>, ev: InputEvent)
    requires KnowsAll(codes, bs) && ev.evType == EV_KEY && !IsHiRes(ev.code)
    ensures Forwarded(codes, bs, ev) <==> forall i :: 0 <= i < |bs| ==> ev.code != codes[bs[i].config.button]
    ensures forall i :: 0 <= i < |bs| && ev.code == codes[bs[i].config.button] ==>
      Advance(codes, bs, ev)[i].live.pressed == ev.value
    ensures forall i :: 0 <= i < |bs| && ev.code == codes[bs[i].config.button] && ev.value == 0 ==>
      Advance(codes, bs, ev)[i].live == Released
    ensures forall i :: 0 <= i < |bs| && ev.code == codes[bs[i].config.button] && ev.value != 0 ==>
      var before, after := bs[i].live, Advance(codes, bs, ev)[i].live;
      after.deltaX == before.deltaX && after.deltaY == before.deltaY && after.moved == before.moved
    ensures forall i :: 0 <= i < |bs| && ev.code != codes[bs[i].config.button] ==>
      Advance(codes, bs, ev)[i] == bs[i]
    ensures (forall i :: 0 <= i < |bs| ==> ev.code != codes[bs[i].config.button]) ==>
      Advance(codes, bs, ev) == bs && StepOutput(codes, bs, ev) == EventWrites(ev.evType, ev.code, ev.value)
  {
    if forall i :: 0 <= i < |bs| ==> ev.code != codes[bs[i].config.button] {
      QuietEmissions(codes, bs, |bs|, ev);
      assert Advance(codes, bs, ev) == bs;
    }
  }

  /**
    A relative event (not a high-resolution code) is held back exactly when
    some held button has `freeze` set, whatever its code, wheel codes included.
    Buttons that are not held are untouched, and when none is held the event
    is forwarded as it is, with nothing else written.
  */
  lemma {:induction false} RelStep(codes: CodeTable, bs: seq<Button>, ev: InputEvent)
    requires KnowsAll(codes, bs) && ev.evType == EV_REL && !IsHiRes(ev.code)
    ensures Forwarded(codes, bs, ev) <==> forall i :: 0 <= i < |bs| ==> !(bs[i].live.pressed != 0 && bs[i].config.freeze)
    ensures forall i :: 0 <= i < |bs| && bs[i].live.pressed == 0 ==> Advance(codes, bs, ev)[i] == bs[i]
    ensures (forall i :: 0 <= i < |bs| ==> bs[i].live.pressed == 0) ==>
      Advance(codes, bs, ev) == bs && StepOutput(codes, bs, ev) == EventWrites(ev.evType, ev.code, ev.value)
  {
    if forall i :: 0 <= i < |bs| ==> bs[i].live.pressed == 0 {
      QuietEmissions(codes, bs, |bs|, ev);
      assert Advance(codes, bs, ev) == bs;
    }
  }

  /**
    The release of the trigger key of button `i`, when no other button of the
    mouse has that trigger: the event is not forwarded, button `i` is reset,
    and all that is written is its verdict: the click chord when it has not
    moved (whatever `scroll` and `freeze` are), nothing when it moved in scroll
    mode, and otherwise the chord of the dominant direction, ties going to the
    vertical axis.
  */
  lemma {:induction false} ReleaseVerdict(codes: CodeTable, bs: seq<Button>, i: nat, ev: InputEvent)
    requires KnowsAll(codes, bs) && i < |bs|
    requires ev.evType == EV_KEY && !IsHiRes(ev.code) && ev.code == codes[bs[i].config.button] && ev.value == 0
    requires forall j :: 0 <= j < |bs| && j != i ==> ev.code != codes[bs[j].config.button]
    ensures !Forwarded(codes, bs, ev)
    ensures Advance(codes, bs, ev)[i].live == Released
    ensures var cfg, live, out := bs[i].config, bs[i].live, StepOutput(codes, bs, ev);
      && (!live.moved ==> out == KeyPressWrites(codes, cfg.click))
      && (live.moved && cfg.scroll ==> out == [])
      && (live.moved && !cfg.scroll && Abs(live.deltaX) > Abs(live.deltaY) ==>
            out == KeyPressWrites(codes, if live.deltaX > 0 then cfg.swipeRight else cfg.swipeLeft))
      && (live.moved && !cfg.scroll && Abs(live.deltaX) <= Abs(live.deltaY) ==>
            out == KeyPressWrites(codes, if live.deltaY > 0 then cfg.swipeDown else cfg.swipeUp))
  {
    forall j | 0 <= j < |bs| && j != i
      ensures Emitted(codes, bs[j].config, bs[j].live, ev) == []
    {
      assert ev.code != codes[bs[j].config.button];
    }
    SoleEmitter(codes, bs, |bs|, ev, i);
    assert Absorbs(codes, bs[i].config, bs[i].live, ev);
  }

  /**
    A motion event while button `i` is the only held button, and it scrolls
    and has (now) moved: one scroll tick of magnitude 1 is written
    (`REL_HWHEEL` with the sign of an X motion, `REL_WHEEL` against the sign
    of a Y motion), and only after it the raw motion, unless the button
    freezes motion.
  */
  lemma {:induction false} ScrollTickFirst(codes: CodeTable, bs: seq<Button>, i: nat, ev: InputEvent)
    requires KnowsAll(codes, bs) && i < |bs|
    requires bs[i].live.pressed != 0 && bs[i].config.scroll
    requires forall j :: 0 <= j < |bs| && j != i ==> bs[j].live.pressed == 0
    requires ev.evType == EV_REL && (ev.code == REL_X || ev.code == REL_Y)
    requires || bs[i].live.moved
             || (ev.code == REL_X && Abs(bs[i].live.deltaX + ev.value) > bs[i].config.delta)
             || (ev.code == REL_Y && Abs(bs[i].live.deltaY + ev.value) > bs[i].config.delta)
    ensures StepOutput(codes, bs, ev) ==
      (if ev.code == REL_X then EventWrites(EV_REL, REL_HWHEEL, HorizontalTick(ev.value))
       else EventWrites(EV_REL, REL_WHEEL, VerticalTick(ev.value)))
      + (if bs[i].config.freeze then [] else EventWrites(EV_REL, ev.code, ev.value))
  {
    SoleEmitter(codes, bs, |bs|, ev, i);
    assert Forwarded(codes, bs, ev) <==> !bs[i].config.freeze by {
      if bs[i].config.freeze {
        assert Absorbs(codes, bs[i].config, bs[i].live, ev);
      }
    }
  }

  // ---------------------------------------------------------------------------
  // Every batch of writes is closed by a sync

  predicate EndsWithSync(w: seq<Entry>)
  {
    w == [] || w[|w| - 1] == Sync
  }

  lemma {:induction false} EmissionsEndWithSync(codes: CodeTable, bs: seq<Button>, n: nat, ev: InputEvent)
    requires KnowsAll(codes, bs) && n <= |bs|
    ensures EndsWithSync(Emissions(codes, bs, n, ev))
  {
    if n != 0 {
      EmissionsEndWithSync(codes, bs, n - 1, ev);
    }
  }

  /** What one raw event makes the mouse write is empty or ends with a sync. */
  lemma StepEndsWithSync(codes: CodeTable, bs: seq<Button>, ev: InputEvent)
    requires KnowsAll(codes, bs)
    ensures EndsWithSync(StepOutput(codes, bs, ev))
  {
    EmissionsEndWithSync(codes, bs, |bs|, ev);
  }

  // ---------------------------------------------------------------------------
  // Streams

  /** The buttons of a mouse do not interact: each one follows its own run over the stream. */
  lemma {:induction false} RunIsPointwise(codes: CodeTable, bs: seq<Button>, evs: seq<InputEvent>)
    requires KnowsAll(codes, bs)
    ensures forall i :: 0 <= i < |bs| ==>
      Run(codes, bs, evs)[i] == Button(bs[i].config, ButtonRun(codes, bs[i].config, bs[i].live, evs))
  {
    if evs != [] {
      RunIsPointwise(codes, bs, evs[..|evs| - 1]);
    }
  }

  /** Handling a stream in two parts is handling it at once. */
  lemma {:induction false} RunAppend(codes: CodeTable, bs: seq<Button>, evs1: seq<InputEvent>, evs2: seq<InputEvent>)
    requires KnowsAll(codes, bs)
    ensures Run(codes, bs, evs1 + evs2) == Run(codes, Run(codes, bs, evs1), evs2)
    ensures RunOutput(codes, bs, evs1 + evs2) == RunOutput(codes, bs, evs1) + RunOutput(codes, Run(codes, bs, evs1), evs2)
  {
    if evs2 == [] {
      assert evs1 + evs2 == evs1;
    } else {
      var init, ev := evs2[..|evs2| - 1], evs2[|evs2| - 1];
      assert evs1 + evs2 == (evs1 + init) + [ev];
      RunAppend(codes, bs, evs1, init);
      RunSnoc(codes, bs, evs1 + init, ev);
      RunSnoc(codes, Run(codes, bs, evs1), init, ev);
      Assoc(RunOutput(codes, bs, evs1), RunOutput(codes, Run(codes, bs, evs1), init),
            StepOutput(codes, Run(codes, bs, evs1 + init), ev));
    }
  }

  /**
    A stream that brings the mouse back to where it started writes the same
    thing every time it is replayed.
  */
  lemma ReplayIsIdentical(codes: CodeTable, bs: seq<Button>, evs: seq<InputEvent>)
    requires KnowsAll(codes, bs) && Run(codes, bs, evs) == bs
    ensures Run(codes, bs, evs + evs) == bs
    ensures RunOutput(codes, bs, evs + evs) == RunOutput(codes, bs, evs) + RunOutput(codes, bs, evs)
  {
    RunAppend(codes, bs, evs, evs);
  }

  /** `moved` is never cleared before a release. */
  lemma {:induction false} MovedSticky(codes: CodeTable, cfg: ButtonConfig, live: Live, evs: seq<InputEvent>)
    requires cfg.button in codes && live.moved
    requires forall k :: 0 <= k < |evs| ==> !IsRelease(codes, cfg, evs[k])
    ensures ButtonRun(codes, cfg, live, evs).moved
  {
    if evs != [] {
      MovedSticky(codes, cfg, live, evs[..|evs| - 1]);
    }
  }

  /** Total relative motion on the axis `axis` (`REL_X` or `REL_Y`) in `evs`. */
  function Motion(evs: seq<InputEvent>, axis: int): int
  {
    if evs == [] then 0
    else
      var ev := evs[|evs| - 1];
      Motion(evs[..|evs| - 1], axis) + if ev.evType == EV_REL && ev.code == axis then ev.value else 0
  }

  /**
    The last event of the non-empty stream `evs` is a motion that leaves the
    total distance on its axis, counted from `live`, strictly beyond `delta`.
  */
  predicate Crosses(delta: int, live: Live, evs: seq<InputEvent>)
    requires evs != []
  {
    var ev := evs[|evs| - 1];
    && ev.evType == EV_REL
    && (|| (ev.code == REL_X && Abs(live.deltaX + Motion(evs, REL_X)) > delta)
        || (ev.code == REL_Y && Abs(live.deltaY + Motion(evs, REL_Y)) > delta))
  }

  /**
    While a button is held (no release of its trigger key), its distances are
    the motion totals, and it has moved exactly when it had already moved or
    some motion event took the distance on that event's axis strictly beyond
    the button's `delta`.
  */
  lemma {:induction false} HeldMotion(codes: CodeTable, cfg: ButtonConfig, live: Live, evs: seq<InputEvent>)
    requires cfg.button in codes && live.pressed != 0
    requires forall k :: 0 <= k < |evs| ==> !IsRelease(codes, cfg, evs[k])
    ensures var r := ButtonRun(codes, cfg, live, evs);
      && r.pressed != 0
      && r.deltaX == live.deltaX + Motion(evs, REL_X)
      && r.deltaY == live.deltaY + Motion(evs, REL_Y)
      && (r.moved <==> live.moved || exists k :: 0 < k <= |evs| && Crosses(cfg.delta, live, evs[..k]))
  {
    if evs != [] {
      var n := |evs|;
      var init := evs[..n - 1];
      HeldMotion(codes, cfg, live, init);
      assert evs[..n] == evs;
      assert forall k :: 0 < k < n ==> evs[..k] == init[..k];
      var r := ButtonRun(codes, cfg, live, evs);
      var exceeded := exists k :: 0 < k <= n && Crosses(cfg.delta, live, evs[..k]);
      var exceededBefore := exists k :: 0 < k <= n - 1 && Crosses(cfg.delta, live, init[..k]);
      assert exceeded <==> exceededBefore || Crosses(cfg.delta, live, evs) by {
        if exceeded && !Crosses(cfg.delta, live, evs) {
          var k :| 0 < k <= n && Crosses(cfg.delta, live, evs[..k]);
          assert k < n && Crosses(cfg.delta, live, init[..k]);
        }
        if exceededBefore {
          var k :| 0 < k <= n - 1 && Crosses(cfg.delta, live, init[..k]);
          assert Crosses(cfg.delta, live, evs[..k]);
        }
      }
    }
  }

  // ---------------------------------------------------------------------------
  // Whole gestures on a mouse with one swipe button

  /** Pressing and releasing the trigger key without motion is the click chord and nothing else. */
  lemma TapIsClick(codes: CodeTable, cfg: ButtonConfig)
    requires KnowsConfig(codes, cfg) && !IsHiRes(codes[cfg.button])
    ensures var bs := [Button(cfg, Released)];
      var evs := [InputEvent(EV_KEY, codes[cfg.button], 1), InputEvent(EV_KEY, codes[cfg.button], 0)];
      Run(codes, bs, evs) == bs && RunOutput(codes, bs, evs) == KeyPressWrites(codes, cfg.click)
  {
    var bs := [Button(cfg, Released)];
    var press, release := InputEvent(EV_KEY, codes[cfg.button], 1), InputEvent(EV_KEY, codes[cfg.button], 0);
    var held := [Button(cfg, Released.(pressed := 1))];
    assert [press, release][..1] == [press];
    assert [press][..0] == [];
    assert Run(codes, bs, [press]) == Advance(codes, bs, press) == held;
    assert Emissions(codes, bs, 1, press) == Emissions(codes, bs, 0, press) + Emitted(codes, cfg, Released, press);
    assert RunOutput(codes, bs, [press]) == StepOutput(codes, bs, press) == [];
    assert Emissions(codes, held, 1, release) == Emissions(codes, held, 0, release) + Emitted(codes, cfg, held[0].live, release);
    assert Advance(codes, held, release) == bs;
  }

  /**
    Press, an X motion of `d` beyond the threshold, release: a non-scrolling
    button forwards the motion (unless it freezes motion) and then writes the
    swipe-right chord.
  */
  lemma SwipeRightGesture(codes: CodeTable, cfg: ButtonConfig, d: int)
    requires KnowsConfig(codes, cfg) && !IsHiRes(codes[cfg.button]) && !cfg.scroll
    requires d > 0 && d > cfg.delta
    ensures var bs := [Button(cfg, Released)];
      var evs := [InputEvent(EV_KEY, codes[cfg.button], 1), InputEvent(EV_REL, REL_X, d), InputEvent(EV_KEY, codes[cfg.button], 0)];
      && Run(codes, bs, evs) == bs
      && RunOutput(codes, bs, evs) == (if cfg.freeze then [] else EventWrites(EV_REL, REL_X, d)) + KeyPressWrites(codes, cfg.swipeRight)
  {
    var bs := [Button(cfg, Released)];
    var press, motion, release := InputEvent(EV_KEY, codes[cfg.button], 1), InputEvent(EV_REL, REL_X, d), InputEvent(EV_KEY, codes[cfg.button], 0);
    var held := [Button(cfg, Released.(pressed := 1))];
    var swiped := [Button(cfg, Live(1, d, 0, true))];
    var evs := [press, motion, release];
    assert evs[..2] == [press, motion];
    assert [press, motion][..1] == [press];
    assert [press][..0] == [];
    assert Run(codes, bs, [press]) == Advance(codes, bs, press) == held;
    assert Emissions(codes, bs, 1, press) == Emissions(codes, bs, 0, press) + Emitted(codes, cfg, Released, press);
    assert RunOutput(codes, bs, [press]) == StepOutput(codes, bs, press) == [];
    assert Run(codes, bs, [press, motion]) == Advance(codes, held, motion) == swiped;
    assert Emissions(codes, held, 1, motion) == Emissions(codes, held, 0, motion) + Emitted(codes, cfg, held[0].live, motion);
    assert StepOutput(codes, held, motion) == if cfg.freeze then [] else EventWrites(EV_REL, REL_X, d);
    assert Emissions(codes, swiped, 1, release) == Emissions(codes, swiped, 0, release) + Emitted(codes, cfg, swiped[0].live, release);
    assert StepOutput(codes, swiped, release) == KeyPressWrites(codes, cfg.swipeRight);
    assert Advance(codes, swiped, release) == bs;
  }
}
