# Keyball44 auto-mouse-layer controller, in Dafny

This project models the auto-mouse-layer controller of the Keyball44
keymap `my_both` (`keymap.c`). From trackball motion and key events, the
controller decides whether the user is typing, about to click, clicking or
scrolling. It switches the click layer (layer 6) on and off and rewrites
each mouse report. Its state is a handful of file-scope variables:

- `state`, `click_timer`, `mouse_movement`, `after_click_lock_movement`;
- the two scroll counters;
- `user_config` and `invert_scroll`.

The project has seven modules:

- `Ints` writes out the C integer behaviour the controller depends on:
  - `int8_t` and `int16_t` wrap-around;
  - `my_abs`, including its wrap on -32768;
  - C's truncating division;
  - elapsed time on the 16-bit timer.
- `Config` models `user_config_t`: repair on load, the four clamped
  adjustments and the step threshold.
- `Scroll` models the carry-preserving scroll-step extraction: the `while`
  loop as a method, proved against the functions `Taken`, `Rest` and
  `Steps`, plus the properties of a run of ticks.
- `AutoMouse` writes every entry point as a pure function from the old
  globals (a `Globals` value) to the new ones, as the code is written.
  Beside them it holds the corrected tick of each of the two findings
  below (`TickCorrected`, `ScrollTickWide`).
- `Keymap` holds `class Firmware`, whose fields are the file-scope
  variables. Each entry point is a method that runs the C statements in
  order and is proved to leave `Snapshot()` equal to the matching
  `AutoMouse` function. Everything proved about those functions therefore
  holds of the methods.
- `AutoMouseProperties` holds the lemmas that state what the controller
  promises.
- `Oled` models `format_4u`, which fills a five-character array slot by
  slot, with its layout and its read-back.

The framework calls are modelled as data:

- `layer_on`/`layer_off` become `clickLayerOn`.
- `eeconfig_update_user` becomes the `persisted` copy of the
  configuration.
- `keyball_set_scroll_mode` becomes `keyballScrollMode`.
- `pointing_device_get_report`/`set_report`/`send` become the current
  report and the list of reports sent.
- `timer_read()` becomes a parameter `now`.
- The host OS that `detected_host_os()` reports is a parameter, and
  `Unavailable` stands for a build without OS detection.

Three behaviours of the code that its comments do not spell out:

- The scroll loops test `my_abs(counter) > th` (keymap.c:347 and 361),
  which is strict. So `th` ticks of `dy = 1` take no step and leave `th`
  in the counter. The first step comes on tick `th + 1` and leaves 1
  (`Scroll.FirstStep`).
- On load, keymap.c:144 repairs only a scroll threshold below 1, and
  keymap.c:140 only an activation motion below 5. Any larger value is
  kept (`Config.Repaired`). `KC_TO_CLICKABLE_INC` (keymap.c:257-262) has
  no upper clamp, so the `int16_t` wraps past 32767
  (`Config.IncToClickable`).
- The comment at keymap.c:35 calls `format_4u` a right-aligned 4-digit
  decimal, space padded. For values of 10000 and above, the code prints
  the low four digits zero-padded, e.g. 10005 gives `0005`
  (`Oled.Format4uText`).

## Model

All source paths are relative to the repository root.

| member | source | states |
|---|---|---|
| Ints.Wrap16 | qmk_firmware/keyboards/keyball/keyball44/keymaps/my_both/keymap.c:390 | conversion of an `int` result back into an `int16_t` variable; a value in range is kept unchanged |
| Ints.Wrap8 | qmk_firmware/keyboards/keyball/keyball44/keymaps/my_both/keymap.c:433-436 | conversion into an `int8_t` (the accumulators and the report's fields); a value in range is kept unchanged |
| Ints.Wrap8Add | qmk_firmware/keyboards/keyball/keyball44/keymaps/my_both/keymap.c:350-353 | adding to a wrapped `int8_t` and wrapping again equals wrapping the exact sum once, so a step-by-step accumulator holds the wrapped total |
| Ints.MyAbs | qmk_firmware/keyboards/keyball/keyball44/keymaps/my_both/keymap.c:185-193 | `my_abs` is non-negative and equals n or -n for every input except -32768 |
| Ints.MyAbsWraps | qmk_firmware/keyboards/keyball/keyball44/keymaps/my_both/keymap.c:187-190 | `my_abs` is the `int16_t` negation of a negative input, so `my_abs(-32768)` is -32768 |
| Ints.CDiv | qmk_firmware/keyboards/keyball/keyball44/keymaps/my_both/keymap.c:372-373 | C division by a positive divisor has the dividend's sign and is no larger in magnitude |
| Ints.CDivTruncates | qmk_firmware/keyboards/keyball/keyball44/keymaps/my_both/keymap.c:372-373 | the remainder of C division has the dividend's sign and is smaller than the divisor in magnitude |
| Ints.CDivExact | qmk_firmware/keyboards/keyball/keyball44/keymaps/my_both/keymap.c:372-373 | the C quotient of k·th by th is k, for k of either sign |
| Ints.CDivExactNeg | qmk_firmware/keyboards/keyball/keyball44/keymaps/my_both/keymap.c:373 | the C quotient of -(k·th) by th is -k |
| Ints.Elapsed | qmk_firmware/keyboards/keyball/keyball44/keymaps/my_both/keymap.c:415 | `timer_elapsed` on the 16-bit timer: `since + r` is `now` modulo 2^16, and without a wrap r is `now - since` |
| Config.Repaired | qmk_firmware/keyboards/keyball/keyball44/keymaps/my_both/keymap.c:138-148 | on load, a field below its floor (5, resp. 1) becomes 50; any other value, however large, is kept; the result is at or above both floors |
| Config.RepairedFixpoint | qmk_firmware/keyboards/keyball/keyball44/keymaps/my_both/keymap.c:138-148 | repair leaves a configuration unchanged exactly when it is usable, repairing twice is repairing once, and the defaults are usable |
| Config.IncToClickable | qmk_firmware/keyboards/keyball/keyball44/keymaps/my_both/keymap.c:257-262 | adds 5 to the activation motion and leaves the threshold alone; from 32763 on, the value wraps negative |
| Config.DecToClickable | qmk_firmware/keyboards/keyball/keyball44/keymaps/my_both/keymap.c:264-278 | subtracts 5 but never goes below 5; values in [5, 10) go to 5; the threshold is unchanged |
| Config.ScrollFaster | qmk_firmware/keyboards/keyball/keyball44/keymaps/my_both/keymap.c:280-288 | subtracts 5 from the threshold, never below 1: a threshold in [1, 6) (or lower, down to -32763) goes to 1; a threshold in [1, 200] stays there |
| Config.ScrollSlower | qmk_firmware/keyboards/keyball/keyball44/keymaps/my_both/keymap.c:290-298 | adds 5 to the threshold, capped at 200: a threshold in (195, 32762] goes to 200, one above 32762 wraps negative; a threshold in [1, 200] stays there |
| Config.StepThreshold | qmk_firmware/keyboards/keyball/keyball44/keymaps/my_both/keymap.c:340-341 | the divisor is at least 1, and it is the configured threshold whenever that is at least 1 |
| Scroll.TakenBounds | qmk_firmware/keyboards/keyball/keyball44/keymaps/my_both/keymap.c:347-356 | the loop takes nothing from a counter within one threshold of zero; otherwise it leaves between 1 and th on the counter's own side of zero |
| Scroll.RestBounds | qmk_firmware/keyboards/keyball/keyball44/keymaps/my_both/keymap.c:347-356 | the carried counter lies in [-th, th] (except -32768, which the loop leaves alone) and keeps the sign of a counter past the threshold |
| Scroll.TakenIsSteps | qmk_firmware/keyboards/keyball/keyball44/keymaps/my_both/keymap.c:347-356 | the amount taken is the signed number of passes times the threshold |
| Scroll.StepsOfCarried | qmk_firmware/keyboards/keyball/keyball44/keymaps/my_both/keymap.c:344-356 | a counter within one threshold plus one `int8_t` delta gives between -128 and 127 passes |
| Scroll.StepsClosedForm | qmk_firmware/keyboards/keyball/keyball44/keymaps/my_both/keymap.c:347-356 | the number of passes in closed form: (c-1)/th above th, -((-c-1)/th) below -th, and 0 in between |
| Scroll.ExtractSteps | qmk_firmware/keyboards/keyball/keyball44/keymaps/my_both/keymap.c:347-356 | the `while` loop leaves `Rest(counter, th)` in the counter, and its `int8_t` accumulator holds minus the amount taken, wrapped |
| Scroll.ExtractingPass | qmk_firmware/keyboards/keyball/keyball44/keymaps/my_both/keymap.c:348-354 | one pass keeps the loop invariant and stays within `int16_t` |
| Scroll.OnePass | qmk_firmware/keyboards/keyball/keyball44/keymaps/my_both/keymap.c:348-354 | one pass on a counter past the threshold moves it one threshold toward zero without overflow |
| Scroll.AccumulatorStep | qmk_firmware/keyboards/keyball/keyball44/keymaps/my_both/keymap.c:350-353 | `rep_v += th` / `rep_v -= th` keeps the accumulator equal to the wrapped distance the counter has moved |
| Scroll.StepsReported | qmk_firmware/keyboards/keyball/keyball44/keymaps/my_both/keymap.c:372-373 | while the amount taken fits `int8_t`, dividing the accumulator by th recovers the signed step count, which fits `int8_t` too |
| Scroll.AccumulatorHoldsTaken | qmk_firmware/keyboards/keyball/keyball44/keymaps/my_both/keymap.c:338-356 | while it fits, the `int8_t` accumulator holds exactly minus the amount taken |
| Scroll.RunConserves | qmk_firmware/keyboards/keyball/keyball44/keymaps/my_both/keymap.c:346-356 | over any run of ticks, the motion fed in equals the loop passes times th plus the counter left, and the counter stays within one threshold (no drift); it counts loop passes, not the steps the host receives, which the `int8_t` accumulator can lose (see Findings) |
| Scroll.SteadyStream | qmk_firmware/keyboards/keyball/keyball44/keymaps/my_both/keymap.c:346-356 | a steady stream of +1 keeps the carried counter in [1, th] once anything was fed |
| Scroll.FirstStep | qmk_firmware/keyboards/keyball/keyball44/keymaps/my_both/keymap.c:347 | th ticks of +1 emit no step and leave th (the strict `>`); tick th+1 emits the first step and leaves 1 |
| AutoMouse.IsClickableMode | qmk_firmware/keyboards/keyball/keyball44/keymaps/my_both/keymap.c:207-210 | the click layer's buttons are live in every state except NONE and WAITING |
| AutoMouse.SetButtonBit | qmk_firmware/keyboards/keyball/keyball44/keymaps/my_both/keymap.c:226-233 | `buttons \|= 1 << i` sets bit i and leaves every other bit as it was |
| AutoMouse.ClearButtonBit | qmk_firmware/keyboards/keyball/keyball44/keymaps/my_both/keymap.c:226-241 | `buttons &= ~(1 << i)` clears bit i and leaves every other bit as it was |
| AutoMouse.HighestBitBounds | qmk_firmware/keyboards/keyball/keyball44/keymaps/my_both/keymap.c:503 | the top set bit r of a non-zero value n satisfies 2^r ≤ n < 2^(r+1); it is 0 for 0 and 1 |
| AutoMouse.HighestLayerIsTop | qmk_firmware/keyboards/keyball/keyball44/keymaps/my_both/keymap.c:503 | `get_highest_layer` of a 32-bit layer state is its top set bit, one of 0..31, and 0 when no layer is active |
| AutoMouse.LockAfterMotion | qmk_firmware/keyboards/keyball/keyball44/keymaps/my_both/keymap.c:327 | corrected lock update, saturating at -32768: it never rises, it subtracts exactly while the `int16_t` subtraction would not wrap, and a spent lock stays spent |
| AutoMouse.TickCorrected | qmk_firmware/keyboards/keyball/keyball44/keymaps/my_both/keymap.c:326-334 | the tick with the corrected lock: equal to `Tick` whenever the lock subtraction does not wrap; in CLICKING with a spent lock, the report passes unchanged, the lock stays spent and nothing else changes |
| AutoMouse.ScrollTick | qmk_firmware/keyboards/keyball/keyball44/keymaps/my_both/keymap.c:336-381 | a scroll tick changes only the two scroll counters and never the buttons |
| AutoMouse.ScrollTickWide | qmk_firmware/keyboards/keyball/keyball44/keymaps/my_both/keymap.c:338-339 | the scroll tick with `int16_t` accumulators: the counters move exactly as in `ScrollTick`, and the buttons are kept |
| AutoMouse.Tick | qmk_firmware/keyboards/keyball/keyball44/keymaps/my_both/keymap.c:310-439 | a tick never changes the buttons, the configuration or its persisted copy, the scroll mode, the current report or the sent reports |
| AutoMouse.OnKey | qmk_firmware/keyboards/keyball/keyball44/keymaps/my_both/keymap.c:212-308 | processing goes on only for keys outside the custom range; a configuration change happens on press only and is persisted; the scroll counters are never touched |
| AutoMouse.OnLayerChange | qmk_firmware/keyboards/keyball/keyball44/keymaps/my_both/keymap.c:501-526 | Keyball's own scroll mode is always off afterwards, and the configuration is untouched |
| AutoMouse.InvertScrollFor | qmk_firmware/keyboards/keyball/keyball44/keymaps/my_both/keymap.c:153-165 | scrolling is inverted exactly for Windows and Linux hosts |
| AutoMouse.PostInit | qmk_firmware/keyboards/keyball/keyball44/keymaps/my_both/keymap.c:138-166 | after start-up, the configuration and its EEPROM copy are both the repaired stored value |
| AutoMouse.EeconfigInit | qmk_firmware/keyboards/keyball/keyball44/keymaps/my_both/keymap.c:131-136 | the defaults {50, 50} are set and written, and they are usable |
| AutoMouseProperties.OtherKeyCancelsMouseMode | qmk_firmware/keyboards/keyball/keyball44/keymaps/my_both/keymap.c:300-307 | pressing any other key gives NONE with the click layer off from any state and returns true; releasing it changes nothing |
| AutoMouseProperties.ButtonPress | qmk_firmware/keyboards/keyball/keyball44/keymaps/my_both/keymap.c:217-247 | a button press sets only its bit, sends the report, and enters CLICKING with a lock of 30; nothing else changes |
| AutoMouseProperties.ButtonRelease | qmk_firmware/keyboards/keyball/keyball44/keymaps/my_both/keymap.c:217-247 | a button release clears only its bit, sends the report, and enters CLICKABLE with the layer on and the timer restarted |
| AutoMouseProperties.ScrollKey | qmk_firmware/keyboards/keyball/keyball44/keymaps/my_both/keymap.c:249-255 | the scroll key enters SCROLLING on press and re-arms the click layer on release |
| AutoMouseProperties.AdjustmentKey | qmk_firmware/keyboards/keyball/keyball44/keymaps/my_both/keymap.c:257-298 | the adjustment keys act on press only and change only the configuration, persisting it; DEC keeps the activation motion ≥ 5; a threshold in [1, 200] stays there |
| AutoMouseProperties.NoneStartsWaiting | qmk_firmware/keyboards/keyball/keyball44/keymaps/my_both/keymap.c:399-402 | motion in NONE starts WAITING with an empty accumulator and a fresh timer; that tick's motion is not counted |
| AutoMouseProperties.WaitingAccumulates | qmk_firmware/keyboards/keyball/keyball44/keymaps/my_both/keymap.c:383-397 | in WAITING, \|x\|+\|y\|+\|h\|+\|v\| accumulates, and reaching the activation motion empties the accumulator and arms the click layer |
| AutoMouseProperties.ClickableMotionRefreshesTimer | qmk_firmware/keyboards/keyball/keyball44/keymaps/my_both/keymap.c:322-324 | motion in CLICKABLE only restarts the timer |
| AutoMouseProperties.IdleTick | qmk_firmware/keyboards/keyball/keyball44/keymaps/my_both/keymap.c:405-431 | without motion, WAITING falls back only after more than 50 ms and CLICKABLE turns the layer off only after more than 5000 ms (in both directions); CLICKING and SCROLLING stay; the report passes unchanged |
| AutoMouseProperties.ClickableTimeoutAcrossWrap | qmk_firmware/keyboards/keyball/keyball44/keymaps/my_both/keymap.c:414-418 | the CLICKABLE timeout is measured across the 16-bit timer's wrap |
| AutoMouseProperties.PassThrough | qmk_firmware/keyboards/keyball/keyball44/keymaps/my_both/keymap.c:433-438 | outside CLICKING and SCROLLING, the report leaves as it came |
| AutoMouseProperties.ClickingSpendsLock | qmk_firmware/keyboards/keyball/keyball44/keymaps/my_both/keymap.c:326-334 | in CLICKING, \|x\|+\|y\| is taken off the lock by `int16_t` subtraction, wrapping below -32768; x and y are zeroed while the new lock is positive and pass unchanged otherwise; h, v and the buttons always pass |
| AutoMouseProperties.DragSpendsLock | qmk_firmware/keyboards/keyball/keyball44/keymaps/my_both/keymap.c:326-334 | while the subtraction does not wrap, n ticks of the same motion d take n·d off the lock and change nothing else |
| AutoMouseProperties.LockRearmsAsWritten | qmk_firmware/keyboards/keyball/keyball44/keymaps/my_both/keymap.c:327-332 | after a press, ticks of x = y = 127: the 129th leaves the lock at -32736 and passes, the 130th wraps it to 32546 and reaches the host with x = y = 0, and so does the 131st |
| AutoMouseProperties.SpentLockStaysSpent | qmk_firmware/keyboards/keyball/keyball44/keymaps/my_both/keymap.c:326-334 | with the corrected lock (`TickCorrected`): once the lock is spent, every later tick of the click passes its motion unchanged and the lock stays spent, however long the drag |
| AutoMouseProperties.ClickIgnoresWobble | qmk_firmware/keyboards/keyball/keyball44/keymaps/my_both/keymap.c:229-233 | right after a press, a tick with \|x\|+\|y\| < 30 reaches the host with x and y zeroed and h and v kept |
| AutoMouseProperties.ScrollingTick | qmk_firmware/keyboards/keyball/keyball44/keymaps/my_both/keymap.c:336-381 | motion in SCROLLING goes to the scroll conversion |
| AutoMouseProperties.ScrollVertical | qmk_firmware/keyboards/keyball/keyball44/keymaps/my_both/keymap.c:336-381 | when 2\|y\| > \|x\|, only the vertical counter absorbs y and is left within [-th, th], with fed = left + k·th; the output has x = y = h = 0 and v = k (negated when inverted) |
| AutoMouseProperties.ScrollHorizontal | qmk_firmware/keyboards/keyball/keyball44/keymaps/my_both/keymap.c:336-381 | otherwise only the horizontal counter absorbs x, with the same carry; the output has x = y = v = 0 and h = -k (k when inverted) |
| AutoMouseProperties.VerticalReport | qmk_firmware/keyboards/keyball/keyball44/keymaps/my_both/keymap.c:372-379 | while the amount taken fits `int8_t` (at most 127 either way), the vertical accumulator becomes v = steps (negated when inverted), with h, x and y zero |
| AutoMouseProperties.HorizontalReport | qmk_firmware/keyboards/keyball/keyball44/keymaps/my_both/keymap.c:372-379 | while the amount taken fits `int8_t` (at most 127 either way), the horizontal accumulator becomes h = -steps (steps when inverted), with v, x and y zero |
| AutoMouseProperties.ScrollSilentAboveInt8 | qmk_firmware/keyboards/keyball/keyball44/keymaps/my_both/keymap.c:338-379 | as written, with a threshold above 128 every scroll tick reports v = h = 0, whatever the counters and the motion |
| AutoMouseProperties.ScrollAccumulatorWrapsAsWritten | qmk_firmware/keyboards/keyball/keyball44/keymaps/my_both/keymap.c:338-356 | as written, threshold 50, counter 50 and y = 127 take 3 steps but report v = -2; threshold 200, counter 100 and y = 127 take 1 step but report v = 0; `ScrollTickWide` reports 3 and 1 |
| AutoMouseProperties.ScrollVerticalWide | qmk_firmware/keyboards/keyball/keyball44/keymaps/my_both/keymap.c:336-381 | with `int16_t` accumulators, from a counter carried within [-th, th]: the counters move as in `ScrollTick`, at most 127 steps up and 128 down are taken, and the host gets v = k (wrapped -k when inverted), x = y = h = 0, for any threshold up to 32639 |
| AutoMouseProperties.ScrollHorizontalWide | qmk_firmware/keyboards/keyball/keyball44/keymaps/my_both/keymap.c:336-381 | the same for the horizontal axis: the host gets h = -k (k when inverted), x = y = v = 0 |
| AutoMouseProperties.ScrollLayerOnTop | qmk_firmware/keyboards/keyball/keyball44/keymaps/my_both/keymap.c:503-506 | layer 3 is the highest active layer exactly when the state lies in [8, 16) |
| AutoMouseProperties.EnterScrollLayer | qmk_firmware/keyboards/keyball/keyball44/keymaps/my_both/keymap.c:506-512 | reaching layer 3 forces SCROLLING from any state: the layer goes off, both counters start at 0 and the timer restarts |
| AutoMouseProperties.LeaveScrollLayer | qmk_firmware/keyboards/keyball/keyball44/keymaps/my_both/keymap.c:513-523 | any other layer state ends SCROLLING and zeroes the counters, the lock and the accumulator, without switching the click layer; in other states nothing of the controller changes |
| AutoMouseProperties.StartUp | qmk_firmware/keyboards/keyball/keyball44/keymaps/my_both/keymap.c:138-166 | start-up leaves a usable configuration equal to its EEPROM copy, with inversion set by the host OS and off without OS detection |
| AutoMouseProperties.RunKeepsConfig | qmk_firmware/keyboards/keyball/keyball44/keymaps/my_both/keymap.c:257-298 | over any sequence of events, a threshold in [1, 200] stays there and the EEPROM copy stays equal to the configuration |
| Keymap.Firmware.constructor | qmk_firmware/keyboards/keyball/keyball44/keymaps/my_both/keymap.c:107-129 | power-on: the statics are zeroed and the EEPROM holds the stored value |
| Keymap.Firmware.EnableClickLayer | qmk_firmware/keyboards/keyball/keyball44/keymaps/my_both/keymap.c:170-175 | `enable_click_layer`: layer on, timer restarted, CLICKABLE |
| Keymap.Firmware.DisableClickLayer | qmk_firmware/keyboards/keyball/keyball44/keymaps/my_both/keymap.c:178-182 | `disable_click_layer`: NONE, layer off |
| Keymap.Firmware.EeconfigInitUser | qmk_firmware/keyboards/keyball/keyball44/keymaps/my_both/keymap.c:131-136 | the method's new state is `EeconfigInit` of the old one |
| Keymap.Firmware.KeyboardPostInitUser | qmk_firmware/keyboards/keyball/keyball44/keymaps/my_both/keymap.c:138-166 | the method's new state is `PostInit` of the old one |
| Keymap.Firmware.ProcessRecordUser | qmk_firmware/keyboards/keyball/keyball44/keymaps/my_both/keymap.c:212-308 | the new state and the result are `OnKey` of the old state |
| Keymap.Firmware.ButtonKey | qmk_firmware/keyboards/keyball/keyball44/keymaps/my_both/keymap.c:217-247 | the button cases leave the state `ButtonEvent` describes |
| Keymap.Firmware.AdjustmentKey | qmk_firmware/keyboards/keyball/keyball44/keymaps/my_both/keymap.c:257-298 | the four adjustment cases leave the state `OnKey` describes |
| Keymap.Firmware.PointingDeviceTaskUser | qmk_firmware/keyboards/keyball/keyball44/keymaps/my_both/keymap.c:310-439 | the new state and the report returned are `Tick` of the old state |
| Keymap.Firmware.OnMotion | qmk_firmware/keyboards/keyball/keyball44/keymaps/my_both/keymap.c:317-403 | with motion: `Tick` of the old state |
| Keymap.Firmware.OnStill | qmk_firmware/keyboards/keyball/keyball44/keymaps/my_both/keymap.c:405-431 | without motion: `Tick` of the old state, with the report unchanged |
| Keymap.Firmware.ScrollStep | qmk_firmware/keyboards/keyball/keyball44/keymaps/my_both/keymap.c:336-381 | the SCROLLING case leaves the counters and returns the report `ScrollTick` describes |
| Keymap.Firmware.FeedVertical | qmk_firmware/keyboards/keyball/keyball44/keymaps/my_both/keymap.c:344-356 | the vertical branch and the report built from `rep_v` are `VerticalScroll` of the old state |
| Keymap.Firmware.FeedHorizontal | qmk_firmware/keyboards/keyball/keyball44/keymaps/my_both/keymap.c:357-370 | the horizontal branch and the report built from `rep_h` are `HorizontalScroll` of the old state |
| Keymap.Firmware.LayerStateSetUser | qmk_firmware/keyboards/keyball/keyball44/keymaps/my_both/keymap.c:501-526 | returns the layer state unchanged and leaves the state `OnLayerChange` describes |
| Oled.Decimal | qmk_firmware/keyboards/keyball/keyball44/keymaps/my_both/keymap.c:34-45 | the decimal numeral of n is non-empty and made of digits |
| Oled.DecimalShort | qmk_firmware/keyboards/keyball/keyball44/keymaps/my_both/keymap.c:34-45 | values below 10000 have numerals of at most four digits, with lengths 1 to 3 exactly for the ranges [0,10), [10,100) and [100,1000) |
| Oled.Format4u | qmk_firmware/keyboards/keyball/keyball44/keymaps/my_both/keymap.c:34-45 | `format_4u` writes `Format4uText(v)` into slots 0..3 and leaves the terminator slot alone |
| Oled.Format4uSlots | qmk_firmware/keyboards/keyball/keyball44/keymaps/my_both/keymap.c:37-43 | the text, slot by slot, is what the divide-by-ten code computes |
| Oled.Format4uLayout | qmk_firmware/keyboards/keyball/keyball44/keymaps/my_both/keymap.c:34-45 | the text is four characters, digits or spaces, with spaces only before the first digit and a digit in the units slot ("   0" for 0) |
| Oled.ParseDecimalLow | qmk_firmware/keyboards/keyball/keyball44/keymaps/my_both/keymap.c:37-43 | reading back the low k digits gives n mod 10^k |
| Oled.ParseDecimalOf | qmk_firmware/keyboards/keyball/keyball44/keymaps/my_both/keymap.c:37-43 | reading back a numeral gives the number |
| Oled.TrimSpaces | qmk_firmware/keyboards/keyball/keyball44/keymaps/my_both/keymap.c:39-43 | dropping the leading padding of a space-padded numeral gives the numeral |
| Oled.Format4uRoundTrip | qmk_firmware/keyboards/keyball/keyball44/keymaps/my_both/keymap.c:34-45 | the text without its padding is digits whose value is v mod 10000, so nothing below 10000 is lost |
| Oled.ShortRoundTrip | qmk_firmware/keyboards/keyball/keyball44/keymaps/my_both/keymap.c:34-45 | below 10000, the padded text trims to the numeral of v and reads back as v |
| Oled.LongRoundTrip | qmk_firmware/keyboards/keyball/keyball44/keymaps/my_both/keymap.c:34-45 | from 10000 on, the text is the zero-padded low four digits, which read back as v mod 10000 |

## Left out

- The `keymaps` layout table (keymap.c:448-498) is static data with no logic.
- OLED rendering `oledkit_render_info_user` (keymap.c:528-574) is display I/O. Only its helper `format_4u` is modelled.
- `wait_ms(400)` and the call to `detected_host_os()` (keymap.c:149-152) are foreign calls. The OS they report is a parameter of `KeyboardPostInitUser`, and `cached_os` is stored as the OS variant rather than as a `uint8_t`.
- QMK framework calls are modelled as fields and parameters, not as code:
  - `layer_on`/`layer_off`, `eeconfig_read_user`/`eeconfig_update_user`, `keyball_set_scroll_mode`, `pointing_device_get_report`/`set_report`/`send`, `timer_read`.
  - `get_highest_layer` is modelled as the index of the top set bit.
  - QMK calls `layer_state_set_user` again from inside `layer_on` and `layer_off`. Neither re-entry is modelled (see the AutoMouse.EnableClickLayer line below for what the `layer_on` one loses). The `layer_off` one in `disable_click_layer` (keymap.c:181) would switch Keyball's scroll mode off on every call: on an Other key press, on the CLICKABLE timeout (keymap.c:414-416) and on entering layer 3 (keymap.c:508), where `Tick` and `OnKey` keep the scroll mode as it was. What it would do with layer 3 on top depends on when QMK stores the new layer state, which is framework code outside this model.
- The `user_config_t` union with its raw `uint32_t` (keymap.c:98-105) is a storage detail. The configuration is a record of two `int16_t` fields, so `user_config.raw = 0` is not modelled.
- The key codes are a datatype. The numeric value of `KEYBALL_SAFE_RANGE`, and so of the custom key codes, is not part of this model.
- Dead code is not modelled:
  - the commented-out time-based WAITING trigger (keymap.c:101, 112, 384-388);
  - the unused `mouse_record_threshold` and `mouse_move_count_ratio` (keymap.c:122-123);
  - the unused `mmouse_move_y_sign` (keymap.c:196-204).
- The keycode comment table (keymap.c:47-67) documents keycodes that this file does not implement.
- AutoMouseProperties.ScrollVertical: v = k is stated only while the fed counter does not wrap and the amount taken fits the `int8_t` accumulator. Beyond that, `ScrollTick` computes what the code does: the host gets the wrapped accumulator divided by th, which is 0 on every tick for any threshold above 128 (`ScrollSilentAboveInt8`), and can have the wrong sign below (`ScrollAccumulatorWrapsAsWritten`); see Findings.
- AutoMouseProperties.ScrollHorizontal: same restriction as ScrollVertical, for `rep_h` and h.
- AutoMouseProperties.WaitingAccumulates: stated only for totals that fit `int16_t`. `Tick` itself wraps the accumulator as the C code does.
- Scroll.RunConserves: stated for thresholds up to 32767 - 128, where adding one tick's `int8_t` motion cannot wrap the counter.
- AutoMouse.EnableClickLayer: the re-entry from `layer_on(click_layer)` (keymap.c:172) is not modelled. It runs before `state = CLICKABLE` (keymap.c:174), and with the click layer (6) on the highest layer is never 3, so it would take the else branch at keymap.c:513-523. That branch always switches Keyball's scroll mode off. When `state` is still SCROLLING, as on a KC_MY_SCR release (keymap.c:253), it also zeroes both scroll counters, `after_click_lock_movement` and `mouse_movement`. The model keeps the scroll mode and those variables, and so do AutoMouseProperties.ScrollKey, AutoMouseProperties.ButtonRelease and the WAITING case of AutoMouse.Tick, which all go through EnableClickLayer: there, what is left in the scroll counters carries into the next scroll-key session, while the program zeroes it on release.
- AutoMouseProperties.SpentLockStaysSpent: proved of the corrected tick only. Of `Tick` as written, it holds only while the lock minus the drag's total motion stays at or above -32768 (`DragSpendsLock`); `LockRearmsAsWritten` shows it failing.
- The report's x and y are `int8_t`, as in QMK's default build. With `MOUSE_EXTENDED_REPORT` they are `int16_t`, and the write-back at keymap.c:433-436 would not narrow them. That build option is not part of this model.

## Findings

| source | as written | input that shows it | evidently intended | confidence | as-written member | corrected member |
|---|---|---|---|---|---|---|
| qmk_firmware/keyboards/keyball/keyball44/keymaps/my_both/keymap.c:327 | `after_click_lock_movement -= my_abs(x) + my_abs(y)` on an `int16_t` wraps below -32768, so a long drag with a button held re-arms the lock and freezes the pointer again | a press, then ticks of x = y = 127: the lock goes 30 → -32736 after 129 ticks → 32546 on the 130th, and the 130th and 131st ticks reach the host with x = y = 0 | once spent, the lock stays spent for the rest of the click | not executed | AutoMouseProperties.LockRearmsAsWritten | AutoMouse.TickCorrected |
| qmk_firmware/keyboards/keyball/keyball44/keymaps/my_both/keymap.c:338-339 | the accumulators `rep_v` and `rep_h` are `int8_t`, but collect th per step; once the amount passes 127 it wraps before the division at keymap.c:372-373 | threshold 50, vertical counter 50, y = 127: 3 steps, `rep_v` = -150 wraps to 106, v = -106/50 = -2; threshold 200, counter 100, y = 127: 1 step, v = 0; for any threshold above 128, every scroll tick reports 0 (ScrollSilentAboveInt8) | the host gets the number of steps taken, v = k | not executed | AutoMouseProperties.ScrollAccumulatorWrapsAsWritten | AutoMouse.ScrollTickWide |
