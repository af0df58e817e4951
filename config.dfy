/** The keymap's persisted user configuration (`user_config_t`): the motion
    needed to arm the click layer and the motion per scroll step, both
    `int16_t`. Loaded from EEPROM at start-up, repaired when out of range,
    adjusted by four keys and written back after every adjustment. */
module Config {
  import opened Ints

  datatype UserConfig = UserConfig(toClickableMovement: int16, scrollThreshold: int16)

  /** `eeconfig_init_user`'s values. */
  const Default: UserConfig := UserConfig(50, 50)

  /** The floor that KC_TO_CLICKABLE_DEC clamps to, and below which a
      loaded `to_clickable_movement` is replaced by the default. */
  const MinToClickableMovement := 5
  /** The cap of KC_SCR_SPD_DEC and the floor of KC_SCR_SPD_INC. */
  const MaxScrollThreshold := 200
  const MinScrollThreshold := 1
  /** The step of all four adjustment keys. */
  const AdjustStep := 5

  /** The configuration `keyboard_post_init_user` keeps after reading
      `stored` from EEPROM: a field below its floor is replaced by its
      default, any other value (however large) is kept. */
  function Repaired(stored: UserConfig): (c: UserConfig)
    ensures c.toClickableMovement >= MinToClickableMovement
    ensures c.scrollThreshold >= MinScrollThreshold
    ensures stored.toClickableMovement >= MinToClickableMovement ==>
              c.toClickableMovement == stored.toClickableMovement
    ensures stored.scrollThreshold >= MinScrollThreshold ==>
              c.scrollThreshold == stored.scrollThreshold
    ensures stored.toClickableMovement < MinToClickableMovement ==>
              c.toClickableMovement == Default.toClickableMovement
    ensures stored.scrollThreshold < MinScrollThreshold ==>
              c.scrollThreshold == Default.scrollThreshold
  {
    var c1 := if stored.toClickableMovement < MinToClickableMovement
              then stored.(toClickableMovement := 50) else stored;
    if c1.scrollThreshold < MinScrollThreshold then c1.(scrollThreshold := 50) else c1
  }

  /** A configuration that start-up would keep as it is. */
  predicate Usable(c: UserConfig) {
    c.toClickableMovement >= MinToClickableMovement && c.scrollThreshold >= MinScrollThreshold
  }

  /** Repair changes exactly the configurations that are not usable, and
      repairing twice is repairing once. */
  lemma RepairedFixpoint(c: UserConfig)
    ensures Repaired(c) == c <==> Usable(c)
    ensures Repaired(Repaired(c)) == Repaired(c)
    ensures Usable(Default)
  {
  }

  /** KC_TO_CLICKABLE_INC: `to_clickable_movement += 5`, with no upper
      clamp, so the `int16_t` wraps past 32767. */
  function IncToClickable(c: UserConfig): (r: UserConfig)
    ensures r.scrollThreshold == c.scrollThreshold
    ensures c.toClickableMovement <= 0x7fff - AdjustStep ==>
              r.toClickableMovement == c.toClickableMovement + AdjustStep
    ensures c.toClickableMovement > 0x7fff - AdjustStep ==> r.toClickableMovement < 0
  {
    c.(toClickableMovement := Wrap16(c.toClickableMovement + AdjustStep))
  }

  /** KC_TO_CLICKABLE_DEC: `to_clickable_movement -= 5`, clamped from below
      at 5. */
  function DecToClickable(c: UserConfig): (r: UserConfig)
    ensures r.scrollThreshold == c.scrollThreshold
    ensures r.toClickableMovement >= MinToClickableMovement
    ensures c.toClickableMovement >= MinToClickableMovement + AdjustStep ==>
              r.toClickableMovement == c.toClickableMovement - AdjustStep
    ensures MinToClickableMovement <= c.toClickableMovement < MinToClickableMovement + AdjustStep ==>
              r.toClickableMovement == MinToClickableMovement
  {
    var t := Wrap16(c.toClickableMovement - AdjustStep);
    c.(toClickableMovement := if t < MinToClickableMovement then MinToClickableMovement else t)
  }

  /** KC_SCR_SPD_INC (scroll faster): `scroll_threshold -= 5`, clamped from
      below at 1. */
  function ScrollFaster(c: UserConfig): (r: UserConfig)
    ensures r.toClickableMovement == c.toClickableMovement
    ensures r.scrollThreshold >= MinScrollThreshold
    ensures c.scrollThreshold >= MinScrollThreshold + AdjustStep ==>
              r.scrollThreshold == c.scrollThreshold - AdjustStep
    ensures -0x8000 + AdjustStep <= c.scrollThreshold < MinScrollThreshold + AdjustStep ==>
              r.scrollThreshold == MinScrollThreshold
    ensures MinScrollThreshold <= c.scrollThreshold <= MaxScrollThreshold ==>
              r.scrollThreshold <= MaxScrollThreshold
  {
    var s := Wrap16(c.scrollThreshold - AdjustStep);
    c.(scrollThreshold := if s < MinScrollThreshold then MinScrollThreshold else s)
  }

  /** KC_SCR_SPD_DEC (scroll slower): `scroll_threshold += 5`, clamped from
      above at 200; a value near 32767 wraps negative before the clamp. */
  function ScrollSlower(c: UserConfig): (r: UserConfig)
    ensures r.toClickableMovement == c.toClickableMovement
    ensures c.scrollThreshold <= 0x7fff - AdjustStep ==> r.scrollThreshold <= MaxScrollThreshold
    ensures c.scrollThreshold <= MaxScrollThreshold - AdjustStep ==>
              r.scrollThreshold == c.scrollThreshold + AdjustStep
    ensures MaxScrollThreshold - AdjustStep < c.scrollThreshold <= 0x7fff - AdjustStep ==>
              r.scrollThreshold == MaxScrollThreshold
    ensures c.scrollThreshold > 0x7fff - AdjustStep ==> r.scrollThreshold < 0
    ensures MinScrollThreshold <= c.scrollThreshold <= MaxScrollThreshold ==>
              MinScrollThreshold <= r.scrollThreshold <= MaxScrollThreshold
  {
    var s := Wrap16(c.scrollThreshold + AdjustStep);
    c.(scrollThreshold := if s > MaxScrollThreshold then MaxScrollThreshold else s)
  }

  /** The threshold the scroll conversion divides by: `scroll_threshold`,
      or 1 when that is below 1. */
  function StepThreshold(c: UserConfig): (th: int16)
    ensures 1 <= th
    ensures c.scrollThreshold >= 1 ==> th == c.scrollThreshold
  {
    if c.scrollThreshold < 1 then 1 else c.scrollThreshold
  }
}
