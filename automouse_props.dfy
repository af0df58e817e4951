/** What the auto-mouse-layer controller promises, proved about the
    functions of module AutoMouse. */
module AutoMouseProperties {
  import opened Ints
  import opened Config
  import opened Scroll
  import opened AutoMouse

  // ------------------------------------------------------------ keys

  /** Typing cancels mouse mode: pressing any key outside the custom range
      turns the click layer off and returns to NONE whatever the state was,
      and QMK goes on processing the key; releasing it changes nothing. */
  lemma OtherKeyCancelsMouseMode(g: Globals, pressed: bool, now: uint16)
    ensures OnKey(g, Other, pressed, now) ==
            (if pressed then g.(state := None, clickLayerOn := false) else g, true)
  {
  }

  /** Pressing button `i` sets bit `i` of the button mask and no other bit,
      flushes the report at once, and enters CLICKING with a fresh lock of
      30; nothing else changes. */
  lemma ButtonPress(g: Globals, i: ButtonIndex, now: uint16)
    ensures var (g', cont) := OnKey(g, MyBtn(i), true, now);
      && !cont
      && (forall j :: 0 <= j < 8 ==> (HasBit(g'.report.buttons, j) <==> j == i || HasBit(g.report.buttons, j)))
      && g'.report == g.report.(buttons := g'.report.buttons)
      && g' == g.(state := Clicking, afterClickLockMovement := AfterClickLock,
                  report := g'.report, sent := g.sent + [g'.report])
  {
    var g' := OnKey(g, MyBtn(i), true, now).0;
    forall j | 0 <= j < 8
      ensures HasBit(g'.report.buttons, j) <==> j == i || HasBit(g.report.buttons, j)
    {
      SetButtonBit(g.report.buttons, i, j);
    }
  }

  /** Releasing button `i` clears bit `i` of the button mask and no other
      bit, flushes the report, and arms the click layer afresh: CLICKABLE,
      layer on, timer restarted. */
  lemma ButtonRelease(g: Globals, i: ButtonIndex, now: uint16)
    ensures var (g', cont) := OnKey(g, MyBtn(i), false, now);
      && !cont
      && (forall j :: 0 <= j < 8 ==> (HasBit(g'.report.buttons, j) <==> j != i && HasBit(g.report.buttons, j)))
      && g'.report == g.report.(buttons := g'.report.buttons)
      && g' == g.(state := Clickable, clickLayerOn := true, clickTimer := now,
                  report := g'.report, sent := g.sent + [g'.report])
  {
    var g' := OnKey(g, MyBtn(i), false, now).0;
    forall j | 0 <= j < 8
      ensures HasBit(g'.report.buttons, j) <==> j != i && HasBit(g.report.buttons, j)
    {
      ClearButtonBit(g.report.buttons, i, j);
    }
  }

  /** The scroll key enters SCROLLING while held and re-arms the click
      layer when released. */
  lemma ScrollKey(g: Globals, pressed: bool, now: uint16)
    ensures OnKey(g, MyScr, pressed, now) ==
            (if pressed then g.(state := Scrolling)
             else g.(state := Clickable, clickLayerOn := true, clickTimer := now), false)
  {
  }

  predicate IsAdjustment(key: Keycode) {
    key == ToClickableInc || key == ToClickableDec || key == ScrSpdInc || key == ScrSpdDec
  }

  /** The adjustment keys act on press only; a press changes the
      configuration and its EEPROM copy together and nothing else.
      KC_TO_CLICKABLE_DEC never takes the activation motion below 5, and
      the two scroll-speed keys keep a threshold in [1, 200] there. */
  lemma AdjustmentKey(g: Globals, key: Keycode, pressed: bool, now: uint16)
    requires IsAdjustment(key)
    ensures var (g', cont) := OnKey(g, key, pressed, now);
      && !cont
      && (!pressed ==> g' == g)
      && (pressed ==> g' == g.(config := g'.config, persisted := g'.config))
      && (pressed && key == ToClickableDec ==> g'.config.toClickableMovement >= MinToClickableMovement)
      && (MinScrollThreshold <= g.config.scrollThreshold <= MaxScrollThreshold ==>
            MinScrollThreshold <= g'.config.scrollThreshold <= MaxScrollThreshold)
  {
  }

  // ------------------------------------------------------------ motion

  /** Motion in NONE starts WAITING with an empty accumulator and a fresh
      timer; that tick's own motion is not counted, and the report passes
      unchanged. */
  lemma NoneStartsWaiting(g: Globals, m: MouseReport, now: uint16)
    requires g.state == None && Moving(m)
    ensures Tick(g, m, now) == (g.(state := Waiting, mouseMovement := 0, clickTimer := now), m)
  {
  }

  /** In WAITING the distance |x|+|y|+|h|+|v| accumulates; the tick on
      which the total reaches the configured activation motion arms the
      click layer (CLICKABLE, layer on, timer restarted) and empties the
      accumulator. Stated for totals that fit in `int16_t`. */
  lemma WaitingAccumulates(g: Globals, m: MouseReport, now: uint16)
    requires g.state == Waiting && Moving(m)
    requires g.mouseMovement + Motion4(m) <= 0x7fff
    ensures Motion4(m) == Abs(m.x) + Abs(m.y) + Abs(m.h) + Abs(m.v)
    ensures var total := g.mouseMovement + Motion4(m);
      Tick(g, m, now) ==
        (if total >= g.config.toClickableMovement
         then g.(mouseMovement := 0, state := Clickable, clickLayerOn := true, clickTimer := now)
         else g.(mouseMovement := total), m)
  {
  }

  function Abs(n: int): nat { if n < 0 then -n else n }

  /** In CLICKABLE, motion only restarts the idle timer. */
  lemma ClickableMotionRefreshesTimer(g: Globals, m: MouseReport, now: uint16)
    requires g.state == Clickable && Moving(m)
    ensures Tick(g, m, now) == (g.(clickTimer := now), m)
  {
  }

  /** A tick without motion: WAITING falls back to NONE only after more
      than 50 ms, CLICKABLE turns the click layer off and falls back to NONE
      only after more than 5000 ms (strictly: at exactly 5000 ms it stays),
      CLICKING and SCROLLING wait for their key, and the report passes
      unchanged. The elapsed time is taken on the wrapping 16-bit timer. */
  lemma IdleTick(g: Globals, m: MouseReport, now: uint16)
    requires !Moving(m)
    ensures var (g', out) := Tick(g, m, now);
      && out == m
      && (g.state == Waiting ==>
            (g'.state == None <==> Elapsed(now, g.clickTimer) > WaitingTimeout)
            && g' == (if g'.state == None then g.(state := None, mouseMovement := 0) else g))
      && (g.state == Clickable ==>
            (g'.state == None <==> Elapsed(now, g.clickTimer) > ToResetTime)
            && g' == (if g'.state == None then g.(state := None, clickLayerOn := false) else g))
      && (g.state == Clicking || g.state == Scrolling ==> g' == g)
      && (g.state == None ==> g' == g.(mouseMovement := 0))
  {
  }

  /** The CLICKABLE timeout counts across the 16-bit timer's wrap: armed
      at 65000 ms, the layer is still on at 4000 ms (4536 ms later) and
      off at 5000 ms (5536 ms later). */
  lemma ClickableTimeoutAcrossWrap(g: Globals, m: MouseReport)
    requires g.state == Clickable && g.clickTimer == 65000 && !Moving(m)
    ensures Tick(g, m, 4000).0 == g
    ensures Tick(g, m, 5000).0 == g.(state := None, clickLayerOn := false)
  {
    assert Elapsed(4000, 65000) == 4536;
    assert Elapsed(5000, 65000) == 5536;
  }

  /** Outside CLICKING and SCROLLING the report is passed on as it came. */
  lemma PassThrough(g: Globals, m: MouseReport, now: uint16)
    requires g.state != Clicking && g.state != Scrolling
    ensures Tick(g, m, now).1 == m
  {
  }

  /** In CLICKING, motion is taken off the lock, |x|+|y| per tick, by
      `int16_t` subtraction (which wraps below -32768); while the lock is
      positive x and y are zeroed, h and v always pass. */
  lemma ClickingSpendsLock(g: Globals, m: MouseReport, now: uint16)
    requires g.state == Clicking && Moving(m)
    ensures var (g', out) := Tick(g, m, now);
      && g' == g.(afterClickLockMovement := Wrap16(g.afterClickLockMovement - (Abs(m.x) + Abs(m.y))))
      && out.h == m.h && out.v == m.v && out.buttons == m.buttons
      && (g'.afterClickLockMovement > 0 ==> out.x == 0 && out.y == 0)
      && (g'.afterClickLockMovement <= 0 ==> out == m)
  {
  }

  /** `ms` applied tick by tick at the same time. */
  function Drag(g: Globals, ms: seq<MouseReport>, now: uint16): Globals
    decreases |ms|
  {
    if ms == [] then g else Drag(Tick(g, ms[0], now).0, ms[1..], now)
  }

  /** Drag, tick by tick with the corrected lock. */
  function DragCorrected(g: Globals, ms: seq<MouseReport>, now: uint16): Globals
    decreases |ms|
  {
    if ms == [] then g else DragCorrected(TickCorrected(g, ms[0], now).0, ms[1..], now)
  }

  /** With the corrected lock, once the lock is spent a held click drags
      freely for the rest of the click, however long the drag. */
  lemma {:induction false} SpentLockStaysSpent(g: Globals, ms: seq<MouseReport>, now: uint16)
    requires g.state == Clicking && g.afterClickLockMovement <= 0
    ensures forall i :: 0 <= i < |ms| ==> TickCorrected(DragCorrected(g, ms[..i], now), ms[i], now).1 == ms[i]
    ensures DragCorrected(g, ms, now).state == Clicking && DragCorrected(g, ms, now).afterClickLockMovement <= 0
    decreases |ms|
  {
    if ms != [] {
      var g1 := TickCorrected(g, ms[0], now).0;
      SpentLockStaysSpent(g1, ms[1..], now);
      forall i | 0 <= i < |ms|
        ensures TickCorrected(DragCorrected(g, ms[..i], now), ms[i], now).1 == ms[i]
      {
        if i > 0 {
          assert ms[..i][1..] == ms[1..][..i - 1];
          assert ms[i] == ms[1..][i - 1];
        }
      }
      assert ms[..|ms|] == ms;
    }
  }

  /** A drag is its first part followed by the rest. */
  lemma {:induction false} DragAppend(g: Globals, a: seq<MouseReport>, b: seq<MouseReport>, now: uint16)
    ensures Drag(g, a + b, now) == Drag(Drag(g, a, now), b, now)
    decreases |a|
  {
    if a != [] {
      assert (a + b)[1..] == a[1..] + b;
      DragAppend(Tick(g, a[0], now).0, a[1..], b, now);
    } else {
      assert a + b == b;
    }
  }

  /** As long as the `int16_t` subtraction does not wrap, a click dragged
      through `n` ticks of the same motion loses that motion `n` times over
      from its lock, and nothing else changes. */
  lemma {:induction false} DragSpendsLock(g: Globals, m: MouseReport, n: nat, now: uint16)
    requires g.state == Clicking && Moving(m)
    requires g.afterClickLockMovement - n * Motion2(m) >= -0x8000
    ensures Drag(g, Repeat(m, n), now) == g.(afterClickLockMovement := g.afterClickLockMovement - n * Motion2(m))
    decreases n
  {
    if n > 0 {
      var d, g1 := Motion2(m), Tick(g, m, now).0;
      MulStep(n - 1, d);
      assert g.afterClickLockMovement - d >= g.afterClickLockMovement - n * d;
      ClickingSpendsLock(g, m, now);
      assert d == Abs(m.x) + Abs(m.y);
      assert Repeat(m, n)[0] == m && Repeat(m, n)[1..] == Repeat(m, n - 1);
      DragSpendsLock(g1, m, n - 1, now);
    }
  }

  /** As written, a click held through a long drag re-arms the lock: after
      a press, ticks of x = y = 127 take 254 per tick off the lock of 30;
      the 129th tick leaves it at -32736 and passes, the 130th wraps it to
      32546 and reaches the host with x and y zeroed, and so does the 131st. */
  lemma LockRearmsAsWritten(g: Globals, i: ButtonIndex, m: MouseReport, t0: uint16, now: uint16)
    requires m.x == 127 && m.y == 127
    ensures var g1 := OnKey(g, MyBtn(i), true, t0).0;
      && Drag(g1, Repeat(m, 129), now).afterClickLockMovement == -32736
      && Tick(Drag(g1, Repeat(m, 128), now), m, now).1 == m
      && Drag(g1, Repeat(m, 130), now).afterClickLockMovement == 32546
      && Tick(Drag(g1, Repeat(m, 129), now), m, now).1 == m.(x := 0, y := 0)
      && Tick(Drag(g1, Repeat(m, 130), now), m, now).1 == m.(x := 0, y := 0)
  {
    var g1 := OnKey(g, MyBtn(i), true, t0).0;
    assert Motion2(m) == 254;
    DragSpendsLock(g1, m, 128, now);
    DragSpendsLock(g1, m, 129, now);
    assert Repeat(m, 130) == Repeat(m, 129) + [m];
    DragAppend(g1, Repeat(m, 129), [m], now);
  }

  /** A click ignores small wobble: right after a button press, one tick
      moving less than 30 in total along x and y reaches the host with x and
      y zeroed. */
  lemma ClickIgnoresWobble(g: Globals, i: ButtonIndex, m: MouseReport, t0: uint16, t1: uint16)
    requires Moving(m) && Abs(m.x) + Abs(m.y) < AfterClickLock
    ensures var out := Tick(OnKey(g, MyBtn(i), true, t0).0, m, t1).1;
      out.x == 0 && out.y == 0 && out.h == m.h && out.v == m.v
  {
  }

  // ------------------------------------------------------------ scrolling

  /** In SCROLLING, motion goes to the scroll conversion. */
  lemma ScrollingTick(g: Globals, m: MouseReport, now: uint16)
    requires g.state == Scrolling && Moving(m)
    ensures Tick(g, m, now) == ScrollTick(g, m)
  {
  }

  /** A scroll tick whose motion is mostly vertical feeds y into the
      vertical counter only; whole thresholds are taken out of it, what is
      left stays within one threshold and is carried (the fed counter is
      the carried one plus the steps times the threshold), and the report
      has no pointer motion, no horizontal scroll and `v` = the signed number
      of steps (negated when scrolling is inverted). Stated while the
      counter does not wrap and the amount taken (the steps times the
      threshold, by TakenIsSteps) fits the `int8_t` accumulator. */
  lemma ScrollVertical(g: Globals, m: MouseReport)
    requires VerticalWins(m)
    requires -0x8000 < g.scrollVCounter + m.y <= 0x7fff
    requires -0x7f <= Taken((g.scrollVCounter + m.y) as int16, StepThreshold(g.config)) <= 0x7f
    ensures var th, c0 := StepThreshold(g.config), (g.scrollVCounter + m.y) as int16;
      var k := Steps(c0, th);
      var (g', out) := ScrollTick(g, m);
      && g' == g.(scrollVCounter := Rest(c0, th))
      && out.x == 0 && out.y == 0 && out.h == 0 && out.buttons == m.buttons
      && out.v == (if g.invertScroll then -k else k)
      && -th <= Rest(c0, th) <= th
      && g.scrollVCounter + m.y == Rest(c0, th) + k * th
  {
    var th, c0 := StepThreshold(g.config), (g.scrollVCounter + m.y) as int16;
    assert Wrap16(g.scrollVCounter + m.y) == c0;
    VerticalScrollIs(g, m, th, c0);
    assert ScrollTick(g, m) == VerticalScroll(g, m, th);
    VerticalReport(m, c0, th, g.invertScroll);
    RestBounds(c0, th);
    TakenIsSteps(c0, th);
  }

  /** A scroll tick whose motion is mostly horizontal feeds x into the
      horizontal counter only, and the report carries `h` = minus the
      signed number of steps (plus when inverted) and no vertical scroll. */
  lemma ScrollHorizontal(g: Globals, m: MouseReport)
    requires !VerticalWins(m)
    requires -0x8000 < g.scrollHCounter + m.x <= 0x7fff
    requires -0x7f <= Taken((g.scrollHCounter + m.x) as int16, StepThreshold(g.config)) <= 0x7f
    ensures var th, c0 := StepThreshold(g.config), (g.scrollHCounter + m.x) as int16;
      var k := Steps(c0, th);
      var (g', out) := ScrollTick(g, m);
      && g' == g.(scrollHCounter := Rest(c0, th))
      && out.x == 0 && out.y == 0 && out.v == 0 && out.buttons == m.buttons
      && out.h == (if g.invertScroll then k else -k)
      && -th <= Rest(c0, th) <= th
      && g.scrollHCounter + m.x == Rest(c0, th) + k * th
  {
    var th, c0 := StepThreshold(g.config), (g.scrollHCounter + m.x) as int16;
    assert Wrap16(g.scrollHCounter + m.x) == c0;
    HorizontalScrollIs(g, m, th, c0);
    assert ScrollTick(g, m) == HorizontalScroll(g, m, th);
    HorizontalReport(m, c0, th, g.invertScroll);
    RestBounds(c0, th);
    TakenIsSteps(c0, th);
  }

  /** As written, the `int8_t` accumulator loses steps: with threshold
      50, vertical counter 50 and y = 127 the loop takes 3 steps, but 150
      wraps in `rep_v` to -106 and the host gets v = -2, the wrong way;
      with threshold 200, counter 100 and y = 127 it takes 1 step and the
      host gets v = 0. With `int16_t` accumulators the host gets 3 and 1. */
  lemma ScrollAccumulatorWrapsAsWritten(g: Globals, b: bv8)
    ensures var m := MouseReport(b, 0, 127, 0, 0);
      var g1 := g.(config := g.config.(scrollThreshold := 50), scrollVCounter := 50, invertScroll := false);
      var g2 := g.(config := g.config.(scrollThreshold := 200), scrollVCounter := 100, invertScroll := false);
      && Steps(177, 50) == 3 && ScrollTick(g1, m).0.scrollVCounter == 27
      && ScrollTick(g1, m).1.v == -2 && ScrollTickWide(g1, m).1.v == 3
      && Steps(227, 200) == 1 && ScrollTick(g2, m).0.scrollVCounter == 27
      && ScrollTick(g2, m).1.v == 0 && ScrollTickWide(g2, m).1.v == 1
  {
    var m := MouseReport(b, 0, 127, 0, 0);
    var g1 := g.(config := g.config.(scrollThreshold := 50), scrollVCounter := 50, invertScroll := false);
    var g2 := g.(config := g.config.(scrollThreshold := 200), scrollVCounter := 100, invertScroll := false);
    assert VerticalWins(m);
    assert Taken(177, 50) == 150 by {
      assert Taken(27, 50) == 0;
      assert Taken(77, 50) == 50;
      assert Taken(127, 50) == 100;
    }
    assert Steps(177, 50) == 3 by {
      assert Steps(27, 50) == 0;
      assert Steps(77, 50) == 1;
      assert Steps(127, 50) == 2;
    }
    assert Wrap8(-150) == 106;
    assert CDiv(-106, 50) == -2 by {
      assert CDiv(6, 50) == 0;
      assert CDiv(56, 50) == 1;
    }
    assert CDiv(150, 50) == 3 by {
      assert CDiv(0, 50) == 0;
      assert CDiv(50, 50) == 1;
      assert CDiv(100, 50) == 2;
    }
    VerticalScrollIs(g1, m, 50, 177);
    assert Taken(227, 200) == 200 by {
      assert Taken(27, 200) == 0;
    }
    assert Steps(227, 200) == 1 by {
      assert Steps(27, 200) == 0;
    }
    assert Wrap8(-200) == 56;
    assert CDiv(-56, 200) == 0;
    assert CDiv(200, 200) == 1 by {
      assert CDiv(0, 200) == 0;
    }
    VerticalScrollIs(g2, m, 200, 227);
  }

  /** As written, a threshold above 128 silences scrolling altogether:
      the `int8_t` accumulator never holds more than 128 in magnitude, so
      its C quotient by the threshold is 0, and every scroll tick reports
      v = h = 0 whatever the counters and the motion. */
  lemma ScrollSilentAboveInt8(g: Globals, m: MouseReport)
    requires StepThreshold(g.config) > 0x80
    ensures ScrollTick(g, m).1.v == 0 && ScrollTick(g, m).1.h == 0
  {
    var th := StepThreshold(g.config);
    assert CDiv(0, th) == 0;
    if VerticalWins(m) {
      var c0 := Wrap16(g.scrollVCounter + m.y);
      VerticalScrollIs(g, m, th, c0);
      var rep: int := Wrap8(-Taken(c0, th));
      assert CDiv(-rep, th) == 0;
    } else {
      var c0 := Wrap16(g.scrollHCounter + m.x);
      HorizontalScrollIs(g, m, th, c0);
      var rep: int := Wrap8(-Taken(c0, th));
      assert CDiv(rep, th) == 0;
    }
  }

  /** The corrected tick, vertical axis: from a counter carried within one
      threshold, the host gets `v` = the signed number of steps the loop
      took (negated when scrolling is inverted), for every threshold up to
      32767 - 128; the counters move as in the program. */
  lemma ScrollVerticalWide(g: Globals, m: MouseReport)
    requires VerticalWins(m)
    requires StepThreshold(g.config) <= 0x7fff - 0x80
    requires -StepThreshold(g.config) <= g.scrollVCounter <= StepThreshold(g.config)
    ensures var th, c0 := StepThreshold(g.config), (g.scrollVCounter + m.y) as int16;
      var k := Steps(c0, th);
      var (g', out) := ScrollTickWide(g, m);
      && g' == ScrollTick(g, m).0 && g' == g.(scrollVCounter := Rest(c0, th))
      && -0x80 <= k <= 0x7f
      && out.x == 0 && out.y == 0 && out.h == 0 && out.buttons == m.buttons
      && out.v == (if g.invertScroll then Wrap8(-k) else k)
  {
    var th, c0 := StepThreshold(g.config), (g.scrollVCounter + m.y) as int16;
    assert Wrap16(g.scrollVCounter + m.y) == c0;
    StepsOfCarried(c0, th);
    TakenIsSteps(c0, th);
    CDivExact(Steps(c0, th), th);
  }

  /** The corrected tick, horizontal axis: the host gets `h` = minus the
      signed number of steps (plus when inverted). */
  lemma ScrollHorizontalWide(g: Globals, m: MouseReport)
    requires !VerticalWins(m)
    requires StepThreshold(g.config) <= 0x7fff - 0x80
    requires -StepThreshold(g.config) <= g.scrollHCounter <= StepThreshold(g.config)
    ensures var th, c0 := StepThreshold(g.config), (g.scrollHCounter + m.x) as int16;
      var k := Steps(c0, th);
      var (g', out) := ScrollTickWide(g, m);
      && g' == ScrollTick(g, m).0 && g' == g.(scrollHCounter := Rest(c0, th))
      && -0x80 <= k <= 0x7f
      && out.x == 0 && out.y == 0 && out.v == 0 && out.buttons == m.buttons
      && out.h == (if g.invertScroll then k else Wrap8(-k))
  {
    var th, c0 := StepThreshold(g.config), (g.scrollHCounter + m.x) as int16;
    assert Wrap16(g.scrollHCounter + m.x) == c0;
    StepsOfCarried(c0, th);
    TakenIsSteps(c0, th);
    CDivExactNeg(Steps(c0, th), th);
  }

  /** The report of a vertical scroll tick carries the signed steps. */
  lemma VerticalReport(m: MouseReport, c0: int16, th: int16, invert: bool)
    requires 1 <= th && -0x7f <= Taken(c0, th) <= 0x7f
    ensures var k, out := Steps(c0, th), ScrollReport(m, 0, Wrap8(-Taken(c0, th)), th, invert);
      out.x == 0 && out.y == 0 && out.h == 0 && out.buttons == m.buttons && out.v == (if invert then -k else k)
  {
    StepsReported(c0, th);
  }

  /** The report of a horizontal scroll tick carries the negated steps. */
  lemma HorizontalReport(m: MouseReport, c0: int16, th: int16, invert: bool)
    requires 1 <= th && -0x7f <= Taken(c0, th) <= 0x7f
    ensures var k, out := Steps(c0, th), ScrollReport(m, Wrap8(-Taken(c0, th)), 0, th, invert);
      out.x == 0 && out.y == 0 && out.v == 0 && out.buttons == m.buttons && out.h == (if invert then k else -k)
  {
    StepsReported(c0, th);
  }

  // ------------------------------------------------------------ layers

  /** The scroll layer is the highest active layer exactly when the layer
      state's top set bit is bit 3. */
  lemma ScrollLayerOnTop(ly: LayerState)
    ensures HighestLayer(ly) == ScrollLayer <==> 8 <= ly < 16
  {
    HighestLayerIsTop(ly);
    var r := HighestLayer(ly);
    if r == ScrollLayer {
      assert Pow2(3) == 8;
    } else if ly >= 1 {
      if r >= 4 {
        Pow2Monotone(4, r);
        assert Pow2(4) == 16;
      } else {
        Pow2Monotone(r, 2);
        assert Pow2(2) == 4;
      }
    }
  }

  /** Entering the scroll layer forces SCROLLING from any state, a click in
      progress included: the click layer goes off, both scroll counters
      start empty and the timer restarts. */
  lemma EnterScrollLayer(g: Globals, ly: LayerState, now: uint16)
    requires HighestLayer(ly) == ScrollLayer
    ensures OnLayerChange(g, ly, now) ==
            g.(state := Scrolling, clickLayerOn := false, scrollVCounter := 0, scrollHCounter := 0,
               clickTimer := now, keyballScrollMode := false)
  {
  }

  /** Any other layer change ends SCROLLING, clearing both scroll counters,
      the lock and the WAITING accumulator without switching the click
      layer; in any other state it changes nothing of the controller. */
  lemma LeaveScrollLayer(g: Globals, ly: LayerState, now: uint16)
    requires HighestLayer(ly) != ScrollLayer
    ensures OnLayerChange(g, ly, now) ==
            (if g.state == Scrolling
             then g.(state := None, scrollVCounter := 0, scrollHCounter := 0,
                     afterClickLockMovement := 0, mouseMovement := 0)
             else g).(keyballScrollMode := false)
  {
  }

  // ------------------------------------------------------------ start-up

  /** Start-up leaves a usable configuration equal to its EEPROM copy, sets
      the scroll inversion from the detected OS (Windows and Linux invert)
      and leaves it off when the build has no OS detection. */
  lemma StartUp(eeprom: UserConfig, os: OsDetection)
    ensures var g := PostInit(Boot(eeprom), os);
      && g.config == g.persisted == Repaired(eeprom)
      && Usable(g.config)
      && g.state == None && !g.clickLayerOn
      && (os.Unavailable? ==> !g.invertScroll)
      && (os.Detected? ==> (g.invertScroll <==> os.os == Windows || os.os == Linux))
  {
  }

  // ------------------------------------------------------------ whole runs

  /** Everything that reaches the controller. */
  datatype Event =
    | KeyEvent(key: Keycode, pressed: bool, at: uint16)
    | MotionEvent(report: MouseReport, at: uint16)
    | LayerEvent(layers: LayerState, at: uint16)

  function Step(g: Globals, e: Event): Globals
  {
    match e
    case KeyEvent(k, p, t) => OnKey(g, k, p, t).0
    case MotionEvent(m, t) => Tick(g, m, t).0
    case LayerEvent(ly, t) => OnLayerChange(g, ly, t)
  }

  function Replay(g: Globals, es: seq<Event>): Globals
    decreases |es|
  {
    if es == [] then g else Replay(Step(g, es[0]), es[1..])
  }

  /** However the adjustment keys are pressed, and whatever else happens,
      a scroll threshold in [1, 200] stays there, and the EEPROM copy
      stays equal to the configuration in use. */
  lemma {:induction false} RunKeepsConfig(g: Globals, es: seq<Event>)
    ensures var g' := Replay(g, es);
      && (MinScrollThreshold <= g.config.scrollThreshold <= MaxScrollThreshold ==>
            MinScrollThreshold <= g'.config.scrollThreshold <= MaxScrollThreshold)
      && (g.persisted == g.config ==> g'.persisted == g'.config)
    decreases |es|
  {
    if es != [] {
      var g1 := Step(g, es[0]);
      assert MinScrollThreshold <= g.config.scrollThreshold <= MaxScrollThreshold ==>
               MinScrollThreshold <= g1.config.scrollThreshold <= MaxScrollThreshold by {
        if es[0].KeyEvent? && IsAdjustment(es[0].key) {
          AdjustmentKey(g, es[0].key, es[0].pressed, es[0].at);
        }
      }
      RunKeepsConfig(g1, es[1..]);
    }
  }
}
