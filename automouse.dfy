/** The auto-mouse-layer controller of the Keyball44 keymap, as pure
    functions over the file-scope variables it keeps (`Globals`). Each
    entry point of the keymap is one function from the old globals and the
    event to the new globals (and its result); the class in module Keymap
    runs the same steps imperatively and is proved equal to these
    functions. The lemmas state what the controller promises. */
module AutoMouse {
  import opened Ints
  import opened Config
  import opened Scroll

  /** `enum click_state`. */
  datatype ClickState = None | Waiting | Clickable | Clicking | Scrolling

  /** QMK's `os_variant_t`, as `detected_host_os()` reports it. */
  datatype OsVariant = Unsure | Linux | Windows | MacOS | IOS

  /** Whether the firmware was built with OS detection and what it saw. */
  datatype OsDetection = Unavailable | Detected(os: OsVariant)

  /** The five logical mouse buttons KC_MY_BTN1..KC_MY_BTN5. */
  type ButtonIndex = i: nat | i < 5

  /** The key codes `process_record_user` tells apart; `Other` is every
      key code outside the keymap's custom range. */
  datatype Keycode =
    | MyBtn(index: ButtonIndex)
    | MyScr
    | ToClickableInc
    | ToClickableDec
    | ScrSpdInc
    | ScrSpdDec
    | Other

  /** `report_mouse_t` with its default 8-bit fields. */
  datatype MouseReport = MouseReport(buttons: bv8, x: int8, y: int8, v: int8, h: int8)

  /** `layer_state_t` (32 bits wide), one bit per active layer. */
  type LayerState = x: int | 0 <= x < 0x1_0000_0000

  /** `to_reset_time`: CLICKABLE gives up after this many idle milliseconds. */
  const ToResetTime := 5000
  /** WAITING gives up after this many idle milliseconds. */
  const WaitingTimeout := 50
  /** The motion a click ignores before the pointer moves again. */
  const AfterClickLock := 30
  /** The layer on which the keymap does its own scrolling. */
  const ScrollLayer := 3

  /** The file-scope variables of the keymap, plus the effects on the
      framework that the model keeps as data: whether the click layer
      (layer 6) is on, the EEPROM copy of the configuration, Keyball's own
      scroll mode, the framework's current mouse report and the reports
      flushed to the host out of band. */
  datatype Globals = Globals(
    state: ClickState,
    clickTimer: uint16,
    mouseMovement: int16,
    afterClickLockMovement: int16,
    scrollVCounter: int16,
    scrollHCounter: int16,
    config: UserConfig,
    persisted: UserConfig,
    invertScroll: bool,
    cachedOs: OsVariant,
    clickLayerOn: bool,
    keyballScrollMode: bool,
    report: MouseReport,
    sent: seq<MouseReport>)

  /** The globals at power-on: C zero-initialises the statics, the EEPROM
      holds whatever was last written. */
  function Boot(eeprom: UserConfig): Globals
  {
    Globals(None, 0, 0, 0, 0, 0, UserConfig(0, 0), eeprom, false, Unsure, false, false,
            MouseReport(0, 0, 0, 0, 0), [])
  }

  // ---------------------------------------------------------------- helpers

  /** `enable_click_layer`. */
  function EnableClickLayer(g: Globals, now: uint16): Globals
  {
    g.(clickLayerOn := true, clickTimer := now, state := Clickable)
  }

  /** `disable_click_layer`. */
  function DisableClickLayer(g: Globals): Globals
  {
    g.(state := None, clickLayerOn := false)
  }

  /** `is_clickable_mode`: the states in which the click layer's buttons
      are meant to be live. */
  function IsClickableMode(s: ClickState): (b: bool)
    ensures b <==> s != None && s != Waiting
  {
    s == Clickable || s == Clicking || s == Scrolling
  }

  /** The bit of button `i` in the report's button mask: `1 << i`. */
  function ButtonBit(i: ButtonIndex): bv8
  {
    (1 as bv8) << i
  }

  predicate HasBit(b: bv8, j: nat)
    requires j < 8
  {
    b & ((1 as bv8) << j) != 0
  }

  /** Setting a button's bit sets that bit and no other. */
  lemma SetButtonBit(b: bv8, i: ButtonIndex, j: nat)
    requires j < 8
    ensures HasBit(b | ButtonBit(i), j) <==> j == i || HasBit(b, j)
  {
  }

  /** Clearing a button's bit clears that bit and no other. */
  lemma ClearButtonBit(b: bv8, i: ButtonIndex, j: nat)
    requires j < 8
    ensures HasBit(b & !ButtonBit(i), j) <==> j != i && HasBit(b, j)
  {
  }

  function Pow2(n: nat): (p: nat)
    ensures p >= 1
  {
    if n == 0 then 1 else 2 * Pow2(n - 1)
  }

  /** `get_highest_layer`: the index of the highest active layer (the most
      significant set bit), 0 when no layer is active; HighestLayerIsTop
      states it. */
  function HighestLayer(ly: LayerState): nat
  {
    HighestBit(ly)
  }

  function HighestBit(n: nat): nat
  {
    if n <= 1 then 0 else HighestBit(n / 2) + 1
  }

  /** HighestBit is the index of the top set bit: 2^r <= n < 2^(r+1). */
  lemma {:induction false} HighestBitBounds(n: nat)
    ensures n >= 1 ==> Pow2(HighestBit(n)) <= n < 2 * Pow2(HighestBit(n))
    ensures n <= 1 ==> HighestBit(n) == 0
  {
    if n > 1 {
      HighestBitBounds(n / 2);
    }
  }

  /** The highest layer of a 32-bit layer state is its top set bit, one of
      layers 0..31. */
  lemma HighestLayerIsTop(ly: LayerState)
    ensures ly >= 1 ==> Pow2(HighestLayer(ly)) <= ly < 2 * Pow2(HighestLayer(ly))
    ensures ly == 0 ==> HighestLayer(ly) == 0
    ensures HighestLayer(ly) < 32
  {
    HighestBitBounds(ly);
    var r := HighestBit(ly);
    if r >= 32 {
      Pow2Monotone(32, r);
      Pow2Of32();
    }
  }

  lemma Pow2Of32()
    ensures Pow2(32) == 0x1_0000_0000
  {
    assert Pow2(4) == 16;
    Pow2Add(4, 4);
    Pow2Add(8, 8);
    Pow2Add(16, 16);
  }

  lemma {:induction false} Pow2Add(a: nat, b: nat)
    ensures Pow2(a + b) == Pow2(a) * Pow2(b)
  {
    if a > 0 {
      Pow2Add(a - 1, b);
    }
  }

  lemma {:induction false} Pow2Monotone(a: nat, b: nat)
    requires a <= b
    ensures Pow2(a) <= Pow2(b)
    decreases b
  {
    if a < b {
      Pow2Monotone(a, b - 1);
    }
  }

  /** The `int16_t` sum of `my_abs` of the given deltas. */
  function Motion2(m: MouseReport): int
  {
    MyAbs(m.x) + MyAbs(m.y)
  }

  function Motion4(m: MouseReport): int
  {
    MyAbs(m.x) + MyAbs(m.y) + MyAbs(m.h) + MyAbs(m.v)
  }

  predicate Moving(m: MouseReport)
  {
    m.x != 0 || m.y != 0 || m.h != 0 || m.v != 0
  }

  /** The vertical axis wins when twice |y| exceeds |x|. */
  predicate VerticalWins(m: MouseReport)
  {
    MyAbs(m.y) * 2 > MyAbs(m.x)
  }

  // ------------------------------------------------- after-click lock

  /** The lock update as keymap.c writes it: `int16_t` subtraction, which
      wraps below -32768. */
  function LockAfterMotionAsWritten(lock: int16, d: int): int16
  {
    Wrap16(lock - d)
  }

  /** The lock update as evidently intended: the subtraction saturates at
      -32768, so a lock that has been spent stays spent. */
  function LockAfterMotion(lock: int16, d: nat): (r: int16)
    ensures r <= lock
    ensures lock - d >= -0x8000 ==> r == lock - d
    ensures lock <= 0 ==> r <= 0
  {
    if lock - d < -0x8000 then -0x8000 else lock - d
  }

  // ---------------------------------------------------------- tick

  /** The SCROLLING branch of `pointing_device_task_user`: the axis that
      wins takes the motion into its counter and whole thresholds out of it;
      only the scroll counters change. */
  function ScrollTick(g: Globals, m: MouseReport): (r: (Globals, MouseReport))
    ensures r.0 == g.(scrollVCounter := r.0.scrollVCounter, scrollHCounter := r.0.scrollHCounter)
    ensures r.1.buttons == m.buttons
  {
    var th := StepThreshold(g.config);
    if VerticalWins(m) then VerticalScroll(g, m, th) else HorizontalScroll(g, m, th)
  }

  /** The vertical axis of a scroll tick: y goes into the vertical counter,
      whose extracted thresholds become `v`. */
  function VerticalScroll(g: Globals, m: MouseReport, th: int16): (Globals, MouseReport)
    requires 1 <= th
  {
    var c := Wrap16(g.scrollVCounter + m.y);
    (g.(scrollVCounter := Rest(c, th)), ScrollReport(m, 0, Wrap8(-Taken(c, th)), th, g.invertScroll))
  }

  /** The horizontal axis of a scroll tick: x goes into the horizontal
      counter, whose extracted thresholds become `h`. */
  function HorizontalScroll(g: Globals, m: MouseReport, th: int16): (Globals, MouseReport)
    requires 1 <= th
  {
    var c := Wrap16(g.scrollHCounter + m.x);
    (g.(scrollHCounter := Rest(c, th)), ScrollReport(m, Wrap8(-Taken(c, th)), 0, th, g.invertScroll))
  }

  /** VerticalScroll with the fed counter named. */
  lemma VerticalScrollIs(g: Globals, m: MouseReport, th: int16, c0: int16)
    requires 1 <= th && c0 == Wrap16(g.scrollVCounter + m.y)
    ensures VerticalScroll(g, m, th) == (g.(scrollVCounter := Rest(c0, th)), ScrollReport(m, 0, Wrap8(-Taken(c0, th)), th, g.invertScroll))
  {
  }

  /** HorizontalScroll with the fed counter named. */
  lemma HorizontalScrollIs(g: Globals, m: MouseReport, th: int16, c0: int16)
    requires 1 <= th && c0 == Wrap16(g.scrollHCounter + m.x)
    ensures HorizontalScroll(g, m, th) == (g.(scrollHCounter := Rest(c0, th)), ScrollReport(m, Wrap8(-Taken(c0, th)), 0, th, g.invertScroll))
  {
  }

  /** The report of a scroll tick, from the two accumulators:
      `h = rep_h / th` and `v = -rep_v / th` in C division, both negated
      when scrolling is inverted, then stored into the report's `int8_t`
      fields; no pointer motion. */
  function ScrollReport(m: MouseReport, repH: int, repV: int, th: int16, invert: bool): MouseReport
    requires 1 <= th
  {
    var h := CDiv(repH, th);
    var v := CDiv(-repV, th);
    var h', v' := if invert then -h else h, if invert then -v else v;
    m.(x := 0, y := 0, h := Wrap8(h'), v := Wrap8(v'))
  }

  /** The scroll tick with the accumulators as wide as the counters
      (`int16_t`), so that the amount taken out of a counter never wraps:
      the counters move exactly as in ScrollTick, only the report differs. */
  function ScrollTickWide(g: Globals, m: MouseReport): (r: (Globals, MouseReport))
    ensures r.0 == ScrollTick(g, m).0
    ensures r.1.buttons == m.buttons
  {
    var th := StepThreshold(g.config);
    if VerticalWins(m) then
      var c := Wrap16(g.scrollVCounter + m.y);
      (g.(scrollVCounter := Rest(c, th)), ScrollReport(m, 0, -Taken(c, th), th, g.invertScroll))
    else
      var c := Wrap16(g.scrollHCounter + m.x);
      (g.(scrollHCounter := Rest(c, th)), ScrollReport(m, -Taken(c, th), 0, th, g.invertScroll))
  }

  /** `pointing_device_task_user`: one tick of motion `m` at time `now`;
      returns the new globals and the report passed on. A tick never
      touches the configuration, the layer observer's scroll mode or the
      button mask. */
  function Tick(g: Globals, m: MouseReport, now: uint16): (r: (Globals, MouseReport))
    ensures r.1.buttons == m.buttons
    ensures r.0.config == g.config && r.0.persisted == g.persisted
    ensures r.0.keyballScrollMode == g.keyballScrollMode && r.0.report == g.report
    ensures r.0.sent == g.sent && r.0.invertScroll == g.invertScroll
  {
    if Moving(m) then
      match g.state
      case Clickable => (g.(clickTimer := now), m)
      case Clicking =>
        var lock := LockAfterMotionAsWritten(g.afterClickLockMovement, Motion2(m));
        (g.(afterClickLockMovement := lock), if lock > 0 then m.(x := 0, y := 0) else m)
      case Scrolling => ScrollTick(g, m)
      case Waiting =>
        var mm := Wrap16(g.mouseMovement + Motion4(m));
        if mm >= g.config.toClickableMovement
        then (EnableClickLayer(g.(mouseMovement := 0), now), m)
        else (g.(mouseMovement := mm), m)
      case None => (g.(clickTimer := now, state := Waiting, mouseMovement := 0), m)
    else
      match g.state
      case Clicking => (g, m)
      case Scrolling => (g, m)
      case Clickable =>
        (if Elapsed(now, g.clickTimer) > ToResetTime then DisableClickLayer(g) else g, m)
      case Waiting =>
        (if Elapsed(now, g.clickTimer) > WaitingTimeout then g.(mouseMovement := 0, state := None) else g, m)
      case None => (g.(mouseMovement := 0, state := None), m)
  }

  /** Tick in CLICKING with motion, with the new lock named. */
  lemma ClickingTickIs(g: Globals, m: MouseReport, now: uint16, lock: int16)
    requires g.state == Clicking && Moving(m)
    requires lock == Wrap16(g.afterClickLockMovement - Motion2(m))
    ensures Tick(g, m, now) == (g.(afterClickLockMovement := lock), if lock > 0 then m.(x := 0, y := 0) else m)
  {
  }

  /** Tick in WAITING with motion, with the new accumulator named. */
  lemma WaitingTickIs(g: Globals, m: MouseReport, now: uint16, mm: int16)
    requires g.state == Waiting && Moving(m)
    requires mm == Wrap16(g.mouseMovement + Motion4(m))
    ensures Tick(g, m, now) ==
      (if mm >= g.config.toClickableMovement then EnableClickLayer(g.(mouseMovement := 0), now) else g.(mouseMovement := mm), m)
  {
  }

  /** Tick with the corrected lock update of a click in progress: it
      agrees with the program wherever the `int16_t` subtraction does not
      wrap, and a spent lock passes the motion through and stays spent. */
  function TickCorrected(g: Globals, m: MouseReport, now: uint16): (r: (Globals, MouseReport))
    ensures g.afterClickLockMovement - Motion2(m) >= -0x8000 ==> r == Tick(g, m, now)
    ensures g.state == Clicking && g.afterClickLockMovement <= 0 ==>
      r.1 == m && r.0 == g.(afterClickLockMovement := r.0.afterClickLockMovement) && r.0.afterClickLockMovement <= 0
  {
    if g.state == Clicking && Moving(m) then
      var lock := LockAfterMotion(g.afterClickLockMovement, Motion2(m));
      (g.(afterClickLockMovement := lock), if lock > 0 then m.(x := 0, y := 0) else m)
    else Tick(g, m, now)
  }

  // ---------------------------------------------------------- keys

  /** Replace the configuration and write it to EEPROM. */
  function Persist(g: Globals, c: UserConfig): Globals
  {
    g.(config := c, persisted := c)
  }

  /** A press or release of button `i`: the bit goes into or out of the
      framework's report, which is flushed at once; a press starts a click
      with a fresh lock, a release re-arms the click layer. */
  function ButtonEvent(g: Globals, i: ButtonIndex, pressed: bool, now: uint16): Globals
  {
    var b := if pressed then g.report.buttons | ButtonBit(i) else g.report.buttons & !ButtonBit(i);
    var rep := g.report.(buttons := b);
    var g1 := g.(report := rep, sent := g.sent + [rep]);
    if pressed then g1.(state := Clicking, afterClickLockMovement := AfterClickLock)
    else EnableClickLayer(g1, now)
  }

  /** ButtonEvent with the new report named: the report update commutes
      with the rest of the event. */
  lemma ButtonEventIs(g: Globals, i: ButtonIndex, pressed: bool, now: uint16, rep: MouseReport)
    requires rep == g.report.(buttons := if pressed then g.report.buttons | ButtonBit(i) else g.report.buttons & !ButtonBit(i))
    ensures ButtonEvent(g, i, pressed, now)
      == (if pressed then g.(state := Clicking, afterClickLockMovement := AfterClickLock) else EnableClickLayer(g, now)).(report := rep, sent := g.sent + [rep])
  {
  }

  /** `process_record_user`: a key event; returns the new globals and
      whether QMK should go on processing the key. Only the four
      adjustment keys touch the configuration, and they write it back. */
  function OnKey(g: Globals, key: Keycode, pressed: bool, now: uint16): (r: (Globals, bool))
    ensures r.1 <==> key == Other
    ensures r.0.config != g.config ==> pressed && r.0.persisted == r.0.config
    ensures r.0.persisted != g.persisted ==> r.0.persisted == r.0.config
    ensures r.0.scrollVCounter == g.scrollVCounter && r.0.scrollHCounter == g.scrollHCounter
  {
    match key
    case MyBtn(i) => (ButtonEvent(g, i, pressed, now), false)
    case MyScr =>
      (if pressed then g.(state := Scrolling) else EnableClickLayer(g, now), false)
    case ToClickableInc =>
      (if pressed then Persist(g, IncToClickable(g.config)) else g, false)
    case ToClickableDec =>
      (if pressed then Persist(g, DecToClickable(g.config)) else g, false)
    case ScrSpdInc =>
      (if pressed then Persist(g, ScrollFaster(g.config)) else g, false)
    case ScrSpdDec =>
      (if pressed then Persist(g, ScrollSlower(g.config)) else g, false)
    case Other =>
      (if pressed then DisableClickLayer(g) else g, true)
  }

  // ---------------------------------------------------------- layers

  /** `layer_state_set_user` (its result, the layer state, is passed on
      unchanged). Keyball's own scroll mode is always switched off. */
  function OnLayerChange(g: Globals, ly: LayerState, now: uint16): (g': Globals)
    ensures !g'.keyballScrollMode
    ensures g'.config == g.config && g'.persisted == g.persisted
  {
    if HighestLayer(ly) == ScrollLayer then
      var d := DisableClickLayer(g.(keyballScrollMode := false));
      d.(state := Scrolling, scrollVCounter := 0, scrollHCounter := 0, clickTimer := now)
    else
      var r := if g.state == Scrolling
               then g.(state := None, scrollVCounter := 0, scrollHCounter := 0,
                       afterClickLockMovement := 0, mouseMovement := 0)
               else g;
      r.(keyballScrollMode := false)
  }

  // ---------------------------------------------------------- start-up

  /** The OS tag to `invert_scroll` switch: Windows and Linux hosts scroll
      the other way round; macOS, iOS and an undetermined host do not. */
  function InvertScrollFor(os: OsVariant): (b: bool)
    ensures b <==> os == Windows || os == Linux
  {
    match os
    case Windows => true
    case Linux => true
    case MacOS => false
    case IOS => false
    case Unsure => false
  }

  /** `keyboard_post_init_user`: read the configuration from EEPROM,
      repair it (writing the repair back) and, when the build has OS
      detection, cache the host OS and set the scroll inversion from it. */
  function PostInit(g: Globals, os: OsDetection): (g': Globals)
    ensures g'.config == g'.persisted == Repaired(g.persisted)
  {
    var c := Repaired(g.persisted);
    var g1 := g.(config := c, persisted := c);
    match os
    case Unavailable => g1
    case Detected(o) => g1.(cachedOs := o, invertScroll := InvertScrollFor(o))
  }

  /** `eeconfig_init_user`: the defaults, written to EEPROM. */
  function EeconfigInit(g: Globals): (g': Globals)
    ensures g'.config == g'.persisted == Default
    ensures Usable(g'.config)
  {
    Persist(g, Default)
  }
}
