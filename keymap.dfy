/** The keymap's entry points as QMK calls them: one object holding the
    file-scope variables of keymap.c, updated in place. Every method runs
    the C statements in their order and is proved to leave the object in
    the state the matching function of module AutoMouse describes, so the
    properties proved there hold of these methods. */
module Keymap {
  import opened Ints
  import opened Config
  import opened Scroll
  import opened AutoMouse

  class Firmware {
    var state: ClickState
    var clickTimer: uint16
    var mouseMovement: int16
    var afterClickLockMovement: int16
    var scrollVCounter: int16
    var scrollHCounter: int16
    var userConfig: UserConfig
    /** What `eeconfig_update_user` last wrote. */
    var eeprom: UserConfig
    var invertScroll: bool
    var cachedOs: OsVariant
    /** Whether `layer_on(click_layer)` is in force. */
    var clickLayerOn: bool
    /** What `keyball_set_scroll_mode` last set. */
    var keyballScrollMode: bool
    /** The framework's current mouse report (`pointing_device_get_report`). */
    var currentReport: MouseReport
    /** The reports flushed with `pointing_device_send`. */
    var sent: seq<MouseReport>

    /** The variables as a value of the functional model. */
    function Snapshot(): Globals
      reads this
    {
      Globals(state, clickTimer, mouseMovement, afterClickLockMovement, scrollVCounter,
              scrollHCounter, userConfig, eeprom, invertScroll, cachedOs, clickLayerOn,
              keyballScrollMode, currentReport, sent)
    }

    /** Power-on: statics zeroed, the EEPROM holding `stored`. */
    constructor (stored: UserConfig)
      ensures Snapshot() == Boot(stored)
    {
      state, clickTimer, mouseMovement, afterClickLockMovement := None, 0, 0, 0;
      scrollVCounter, scrollHCounter := 0, 0;
      userConfig, eeprom := UserConfig(0, 0), stored;
      invertScroll, cachedOs, clickLayerOn, keyballScrollMode := false, Unsure, false, false;
      currentReport, sent := MouseReport(0, 0, 0, 0, 0), [];
    }

    /** `enable_click_layer`. */
    method EnableClickLayer(now: uint16)
      modifies this
      ensures Snapshot() == AutoMouse.EnableClickLayer(old(Snapshot()), now)
    {
      clickLayerOn := true;
      clickTimer := now;
      state := Clickable;
    }

    /** `disable_click_layer`. */
    method DisableClickLayer()
      modifies this
      ensures Snapshot() == AutoMouse.DisableClickLayer(old(Snapshot()))
    {
      state := None;
      clickLayerOn := false;
    }

    /** `eeconfig_init_user`. */
    method EeconfigInitUser()
      modifies this
      ensures Snapshot() == EeconfigInit(old(Snapshot()))
    {
      userConfig := UserConfig(50, 50);
      eeprom := userConfig;
    }

    /** `keyboard_post_init_user`, with what `detected_host_os` returned (or
        its absence from the build) as a parameter. */
    method KeyboardPostInitUser(os: OsDetection)
      modifies this
      ensures Snapshot() == PostInit(old(Snapshot()), os)
    {
      userConfig := eeprom;
      if userConfig.toClickableMovement < 5 {
        userConfig := userConfig.(toClickableMovement := 50);
        eeprom := userConfig;
      }
      if userConfig.scrollThreshold < 1 {
        userConfig := userConfig.(scrollThreshold := 50);
        eeprom := userConfig;
      }
      match os
      case Unavailable =>
      case Detected(o) =>
        cachedOs := o;
        invertScroll := InvertScrollFor(o);
    }

    /** `process_record_user`: returns whether QMK goes on processing the
        key. */
    method ProcessRecordUser(keycode: Keycode, pressed: bool, now: uint16) returns (cont: bool)
      modifies this
      ensures (Snapshot(), cont) == OnKey(old(Snapshot()), keycode, pressed, now)
    {
      match keycode
      case MyBtn(i) =>
        ButtonKey(i, pressed, now);
        return false;
      case MyScr =>
        if pressed {
          state := Scrolling;
        } else {
          EnableClickLayer(now);
        }
        return false;
      case Other =>
        if pressed {
          DisableClickLayer();
        }
        return true;
      case _ =>
        AdjustmentKey(keycode, pressed);
        return false;
    }

    /** The KC_MY_BTN1..KC_MY_BTN5 case: press or release button `i` in the
        framework's report and flush it. */
    method ButtonKey(i: ButtonIndex, pressed: bool, now: uint16)
      modifies this
      ensures Snapshot() == ButtonEvent(old(Snapshot()), i, pressed, now)
    {
      ghost var before := Snapshot();
      var report := currentReport;
      var btn := ButtonBit(i);
      if pressed {
        report := report.(buttons := report.buttons | btn);
        state := Clicking;
        afterClickLockMovement := 30;
      } else {
        report := report.(buttons := report.buttons & !btn);
        EnableClickLayer(now);
      }
      currentReport := report;
      sent := sent + [report];
      ButtonEventIs(before, i, pressed, now, report);
    }

    /** The four adjustment cases: on press, change one configuration field
        by 5, clamp it, and write the configuration to EEPROM. */
    method AdjustmentKey(keycode: Keycode, pressed: bool)
      requires keycode == ToClickableInc || keycode == ToClickableDec || keycode == ScrSpdInc || keycode == ScrSpdDec
      modifies this
      ensures (Snapshot(), false) == OnKey(old(Snapshot()), keycode, pressed, 0)
    {
      if pressed {
        match keycode {
          case ToClickableInc =>
            userConfig := userConfig.(toClickableMovement := Wrap16(userConfig.toClickableMovement + 5));
          case ToClickableDec =>
            userConfig := userConfig.(toClickableMovement := Wrap16(userConfig.toClickableMovement - 5));
            if userConfig.toClickableMovement < 5 {
              userConfig := userConfig.(toClickableMovement := 5);
            }
          case ScrSpdInc =>
            userConfig := userConfig.(scrollThreshold := Wrap16(userConfig.scrollThreshold - 5));
            if userConfig.scrollThreshold < 1 {
              userConfig := userConfig.(scrollThreshold := 1);
            }
          case ScrSpdDec =>
            userConfig := userConfig.(scrollThreshold := Wrap16(userConfig.scrollThreshold + 5));
            if userConfig.scrollThreshold > 200 {
              userConfig := userConfig.(scrollThreshold := 200);
            }
        }
        eeprom := userConfig;
      }
    }

    /** `pointing_device_task_user`: one tick of motion at time `now`;
        returns the report passed on to the host. */
    method PointingDeviceTaskUser(mouseReport: MouseReport, now: uint16) returns (r: MouseReport)
      modifies this
      ensures (Snapshot(), r) == Tick(old(Snapshot()), mouseReport, now)
    {
      if mouseReport.x != 0 || mouseReport.y != 0 || mouseReport.h != 0 || mouseReport.v != 0 {
        r := OnMotion(mouseReport, now);
      } else {
        OnStill(mouseReport, now);
        r := mouseReport;
      }
    }

    /** The switch on `state` for a tick with motion: `current_x`..`current_v`
        start as the report's deltas and are written back into it. */
    method OnMotion(mouseReport: MouseReport, now: uint16) returns (r: MouseReport)
      requires Moving(mouseReport)
      modifies this
      ensures (Snapshot(), r) == Tick(old(Snapshot()), mouseReport, now)
    {
      var currentX: int16 := mouseReport.x;
      var currentY: int16 := mouseReport.y;
      var currentH: int16 := mouseReport.h;
      var currentV: int16 := mouseReport.v;
      match state {
      case Clickable =>
        clickTimer := now;
      case Clicking =>
        ClickingTickIs(Snapshot(), mouseReport, now, Wrap16(afterClickLockMovement - Motion2(mouseReport)));
        afterClickLockMovement := Wrap16(afterClickLockMovement - (MyAbs(currentX) + MyAbs(currentY)));
        if afterClickLockMovement > 0 {
          currentX := 0;
          currentY := 0;
        }
      case Scrolling =>
        var scrolled := ScrollStep(mouseReport);
        currentX, currentY, currentH, currentV := scrolled.x, scrolled.y, scrolled.h, scrolled.v;
      case Waiting =>
        WaitingTickIs(Snapshot(), mouseReport, now, Wrap16(mouseMovement + Motion4(mouseReport)));
        mouseMovement := Wrap16(mouseMovement + (MyAbs(currentX) + MyAbs(currentY) + MyAbs(currentH) + MyAbs(currentV)));
        if mouseMovement >= userConfig.toClickableMovement {
          mouseMovement := 0;
          EnableClickLayer(now);
        }
      case None =>
        clickTimer := now;
        state := Waiting;
        mouseMovement := 0;
      }
      r := mouseReport.(x := Wrap8(currentX), y := Wrap8(currentY), h := Wrap8(currentH), v := Wrap8(currentV));
    }

    /** The switch on `state` for a tick without motion: only the timeouts
        act; the report passes through. */
    method OnStill(mouseReport: MouseReport, now: uint16)
      requires !Moving(mouseReport)
      modifies this
      ensures (Snapshot(), mouseReport) == Tick(old(Snapshot()), mouseReport, now)
    {
      match state {
      case Clicking =>
      case Scrolling =>
      case Clickable =>
        if Elapsed(now, clickTimer) > ToResetTime {
          DisableClickLayer();
        }
      case Waiting =>
        if Elapsed(now, clickTimer) > WaitingTimeout {
          mouseMovement := 0;
          state := None;
        }
      case None =>
        mouseMovement := 0;
        state := None;
      }
    }

    /** The SCROLLING case of `pointing_device_task_user` for the motion
        `m`: feeds the winning axis into its counter, extracts the whole
        thresholds and returns the report built from the accumulators. */
    method ScrollStep(m: MouseReport) returns (r: MouseReport)
      modifies this`scrollVCounter, this`scrollHCounter
      ensures (Snapshot(), r) == ScrollTick(old(Snapshot()), m)
    {
      var th := StepThreshold(userConfig);
      if VerticalWins(m) {
        r := FeedVertical(m, th);
      } else {
        r := FeedHorizontal(m, th);
      }
    }

    /** `scroll_v_mouse_interval_counter += current_y`, the extraction loop
        on it, and the report built from `rep_v`. */
    method FeedVertical(m: MouseReport, th: int16) returns (r: MouseReport)
      requires 1 <= th
      modifies this`scrollVCounter
      ensures (Snapshot(), r) == VerticalScroll(old(Snapshot()), m, th)
    {
      ghost var before := Snapshot();
      var counter := Wrap16(scrollVCounter + m.y);
      VerticalScrollIs(before, m, th, counter);
      var repV;
      scrollVCounter, repV := ExtractSteps(counter, th);
      r := ScrollReport(m, 0, repV, th, invertScroll);
    }

    /** `scroll_h_mouse_interval_counter += current_x`, the extraction loop
        on it, and the report built from `rep_h`. */
    method FeedHorizontal(m: MouseReport, th: int16) returns (r: MouseReport)
      requires 1 <= th
      modifies this`scrollHCounter
      ensures (Snapshot(), r) == HorizontalScroll(old(Snapshot()), m, th)
    {
      ghost var before := Snapshot();
      var counter := Wrap16(scrollHCounter + m.x);
      HorizontalScrollIs(before, m, th, counter);
      var repH;
      scrollHCounter, repH := ExtractSteps(counter, th);
      r := ScrollReport(m, repH, 0, th, invertScroll);
    }

    /** `layer_state_set_user`: observes a layer change and returns the
        layer state unchanged. */
    method LayerStateSetUser(lyState: LayerState, now: uint16) returns (r: LayerState)
      modifies this
      ensures r == lyState
      ensures Snapshot() == OnLayerChange(old(Snapshot()), lyState, now)
    {
      var highest := HighestLayer(lyState);
      if highest == 3 {
        keyballScrollMode := false;
        DisableClickLayer();
        state := Scrolling;
        scrollVCounter := 0;
        scrollHCounter := 0;
        clickTimer := now;
      } else {
        if state == Scrolling {
          state := None;
          scrollVCounter := 0;
          scrollHCounter := 0;
          afterClickLockMovement := 0;
          mouseMovement := 0;
        }
        keyballScrollMode := false;
      }
      return lyState;
    }
  }
}
