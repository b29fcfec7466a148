/**
 * The liveliness badge: "Inactive", a countdown, or "Active", and the
 * `formatTime` rendering of the countdown as whole seconds, rounded up.
 */
module LivelinessIndicator {
  import opened JsText

  /** `Math.ceil(ms / 1000)` for an integer ms. */
  function CeilSeconds(ms: int): int {
    -((-ms) / 1000)
  }

  /** `a % b` in JavaScript: the remainder of division truncated toward zero, with the sign of a. */
  function JsRem(a: int, b: int): int
    requires b > 0
  {
    if a >= 0 then a % b else -((-a) % b)
  }

  /** `formatTime(ms)`. */
  function FormatTime(ms: int): string {
    var seconds := CeilSeconds(ms);
    var minutes := seconds / 60;
    var remainingSeconds := JsRem(seconds, 60);
    if minutes > 0 then IntToString(minutes) + "m " + IntToString(remainingSeconds) + "s"
    else IntToString(seconds) + "s"
  }

  /** The rounded-up seconds are the least whole number of seconds that covers ms. */
  lemma CeilSecondsBounds(ms: int)
    ensures (CeilSeconds(ms) - 1) * 1000 < ms <= CeilSeconds(ms) * 1000
    ensures ms >= 0 ==> CeilSeconds(ms) >= 0
  {
    var q := (-ms) / 1000;
    var r := (-ms) % 1000;
    assert -ms == q * 1000 + r && 0 <= r < 1000;
  }

  /** Minutes and remaining seconds recompose the seconds, and the remainder is below a minute. */
  lemma MinutesDecompose(ms: int)
    requires ms >= 0
    ensures var seconds := CeilSeconds(ms);
      (seconds / 60) * 60 + JsRem(seconds, 60) == seconds && 0 <= JsRem(seconds, 60) < 60
  {
    CeilSecondsBounds(ms);
  }

  /** The minutes form is used exactly when more than 59 seconds are left. */
  lemma FormatTimeForm(ms: int)
    ensures CeilSeconds(ms) / 60 > 0 <==> ms > 59000
    ensures ms > 59000 ==>
      FormatTime(ms) == IntToString(CeilSeconds(ms) / 60) + "m " + IntToString(CeilSeconds(ms) % 60) + "s"
    ensures ms <= 59000 ==> FormatTime(ms) == IntToString(CeilSeconds(ms)) + "s"
  {
    CeilSecondsBounds(ms);
  }

  /** Nothing left reads "0s". */
  lemma FormatTimeZero()
    ensures FormatTime(0) == "0s"
  {
    assert CeilSeconds(0) == 0;
    assert NatToString(0) == "0";
  }

  /** Any part of the last second reads "1s". */
  lemma FormatTimeLastSecond(ms: int)
    requires 0 < ms <= 1000
    ensures FormatTime(ms) == "1s"
  {
    CeilSecondsBounds(ms);
    assert CeilSeconds(ms) == 1;
    assert NatToString(1) == "1";
  }

  /** During the warning (at most a minute left) the countdown reads "1m 0s" or a number of seconds from 1 to 59. */
  lemma WarningLabel(ms: int)
    requires 0 < ms <= 60000
    ensures ms > 59000 ==> FormatTime(ms) == "1m 0s"
    ensures ms <= 59000 ==> FormatTime(ms) == IntToString(CeilSeconds(ms)) + "s" && 1 <= CeilSeconds(ms) <= 59
  {
    CeilSecondsBounds(ms);
    if ms > 59000 {
      assert CeilSeconds(ms) == 60;
      assert NatToString(1) == "1" && NatToString(0) == "0";
    }
  }

  /** The badge the indicator shows. */
  datatype Badge = InactiveBadge | CountdownBadge(text: string) | ActiveBadge

  /** The badge choice: inactive first, then the warning countdown, then active. */
  function SelectBadge(isActive: bool, showWarning: bool, timeUntilInactive: int): (b: Badge)
    ensures !isActive ==> b == InactiveBadge
    ensures isActive && showWarning ==> b == CountdownBadge(FormatTime(timeUntilInactive))
    ensures isActive && !showWarning ==> b == ActiveBadge
  {
    if !isActive then InactiveBadge
    else if showWarning then CountdownBadge(FormatTime(timeUntilInactive))
    else ActiveBadge
  }
}
