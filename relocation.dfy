/**
 * The "move on new window" record of `ForegroundWindowChanged`. Some programs
 * (a browser opened from a link, say) open their new window on the desktop where
 * they already have one, and the switcher follows them there. The manager
 * remembers the desktop the user came from, and when a window of such a program
 * then comes to the front on the new desktop within a timeout, it sends that
 * window back to the desktop the user came from.
 *
 * Time is counted in milliseconds from `DateTime.MinValue`, so `MinValue` is 0
 * and marks "nothing pending".
 */
module Relocation {
  import opened Windows

  /** `DateTime.MinValue`. */
  const MinValue: int := 0

  /** The three `lastMoveOnNewWindow*` fields. */
  datatype Pending = Pending(hwnd: Hwnd, fromDesktop: int, openedTime: int)

  /** The fields as the manager is created: no window, desktop 0, `MinValue`. */
  const NoPending := Pending(NoWindow, 0, MinValue)

  /** How the handler goes on after the record was consulted:
      - Proceed: on to the activity recording;
      - Refreshed: the same new window (or its "Opening - " placeholder) again;
        return at once;
      - MoveTo(target): send the window to `target`, then return. */
  datatype Reaction = Proceed | Refreshed | MoveTo(target: int)

  datatype StepResult = StepResult(next: Pending, reaction: Reaction)

  /** One foreground change of a window `hwnd` that resolved to desktop
      `windowDesktopId` while `current` is the manager's desktop, `now` the clock
      and `isTrigger` whether the window's program is one of the "move on new
      window" programs. */
  function Step(p: Pending, hwnd: Hwnd, isTrigger: bool, windowDesktopId: int, current: int,
                timeoutMs: int, now: int, title: Hwnd -> string): StepResult
  {
    if !isTrigger then
      StepResult(p, Proceed)
    else if windowDesktopId != current then
      // Opened away from the current desktop: remember where the user was.
      StepResult(Pending(hwnd, current, now), Proceed)
    else if now - p.openedTime < timeoutMs && p.fromDesktop != current then
      if p.hwnd == hwnd || IsOpeningPlaceholderOf(title, hwnd, p.hwnd) then
        StepResult(p.(openedTime := now), Refreshed)
      else
        StepResult(p.(hwnd := NoWindow, openedTime := MinValue), MoveTo(p.fromDesktop))
    else if p.openedTime != MinValue then
      // Timed out.
      StepResult(p.(openedTime := MinValue), Proceed)
    else
      StepResult(p, Proceed)
  }

  /** Only the windows of the listed programs touch the record. */
  lemma OtherProgramsIgnored(p: Pending, hwnd: Hwnd, windowDesktopId: int, current: int,
                             timeoutMs: int, now: int, title: Hwnd -> string)
    ensures Step(p, hwnd, false, windowDesktopId, current, timeoutMs, now, title) == StepResult(p, Proceed)
  {
  }

  /** A listed program's window on another desktop records the window, the
      current desktop and the time, and the handler goes on. */
  lemma OpenedElsewhereRecords(p: Pending, hwnd: Hwnd, windowDesktopId: int, current: int,
                               timeoutMs: int, now: int, title: Hwnd -> string)
    requires windowDesktopId != current
    ensures Step(p, hwnd, true, windowDesktopId, current, timeoutMs, now, title) ==
            StepResult(Pending(hwnd, current, now), Proceed)
  {
  }

  /** The record acts (refresh or move) exactly when a listed program's window
      comes up on the current desktop within the timeout of the record and the
      record was made from another desktop. */
  lemma ActsOnlyWithinTimeout(p: Pending, hwnd: Hwnd, isTrigger: bool, windowDesktopId: int, current: int,
                              timeoutMs: int, now: int, title: Hwnd -> string)
    ensures Step(p, hwnd, isTrigger, windowDesktopId, current, timeoutMs, now, title).reaction != Proceed <==>
      isTrigger && windowDesktopId == current && now - p.openedTime < timeoutMs && p.fromDesktop != current
  {
  }

  /** A refresh keeps the window and the origin and restarts the timeout; a move
      goes to the recorded origin, which is not the current desktop, and clears
      the record. */
  lemma ReactionsWithinTimeout(p: Pending, hwnd: Hwnd, isTrigger: bool, windowDesktopId: int, current: int,
                               timeoutMs: int, now: int, title: Hwnd -> string)
    ensures var r := Step(p, hwnd, isTrigger, windowDesktopId, current, timeoutMs, now, title);
      (r.reaction == Refreshed ==>
        r.next == Pending(p.hwnd, p.fromDesktop, now) &&
        (hwnd == p.hwnd || IsOpeningPlaceholderOf(title, hwnd, p.hwnd))) &&
      (r.reaction.MoveTo? ==>
        r.reaction.target == p.fromDesktop && p.fromDesktop != current &&
        r.next == Pending(NoWindow, p.fromDesktop, MinValue) &&
        hwnd != p.hwnd && !IsOpeningPlaceholderOf(title, hwnd, p.hwnd))
  {
  }

  /** A listed program's window on the current desktop that does not act
      leaves the record expired: the window and origin are kept and the time is
      `MinValue`. */
  lemma ExpiredRecordCleared(p: Pending, hwnd: Hwnd, windowDesktopId: int, current: int,
                             timeoutMs: int, now: int, title: Hwnd -> string)
    requires windowDesktopId == current
    requires Step(p, hwnd, true, windowDesktopId, current, timeoutMs, now, title).reaction == Proceed
    ensures Step(p, hwnd, true, windowDesktopId, current, timeoutMs, now, title).next ==
            Pending(p.hwnd, p.fromDesktop, MinValue)
  {
  }

  /** An expired record stays inert: once its time is `MinValue` and the clock
      is at least a timeout past `MinValue`, no window on the current desktop
      makes it act, and it does not change. */
  lemma ExpiredRecordInert(p: Pending, hwnd: Hwnd, isTrigger: bool, current: int,
                           timeoutMs: int, now: int, title: Hwnd -> string)
    requires p.openedTime == MinValue && now - MinValue >= timeoutMs
    ensures Step(p, hwnd, isTrigger, current, current, timeoutMs, now, title) == StepResult(p, Proceed)
  {
  }

  /** The number of 100 ms waits the retry loop makes at most: the least `n`
      with `100 * n` reaching `timeoutMs + 300`. */
  function RetryLimit(timeoutMs: int): (n: nat)
    ensures 100 * n >= timeoutMs + 300
    ensures n > 0 ==> 100 * (n - 1) < timeoutMs + 300
  {
    if timeoutMs + 300 <= 0 then 0 else (timeoutMs + 300 + 99) / 100
  }

  /** The usual case: a browser opened from desktop 0 puts its window `w` on
      desktop 1 (where it already lives) while the manager still shows desktop 0;
      once the manager follows to desktop 1, a different new window `n` of the
      browser that comes to the front there within the timeout is sent back to
      desktop 0, and the record is cleared. */
  lemma NewWindowSentBack(w: Hwnd, n: Hwnd, t0: int, t1: int, timeoutMs: int, title: Hwnd -> string)
    requires w != n && !IsOpeningPlaceholderOf(title, n, w)
    requires t0 <= t1 < t0 + timeoutMs
    ensures var first := Step(NoPending, w, true, 1, 0, timeoutMs, t0, title);
      first == StepResult(Pending(w, 0, t0), Proceed) &&
      Step(first.next, n, true, 1, 1, timeoutMs, t1, title) == StepResult(Pending(NoWindow, 0, MinValue), MoveTo(0))
  {
  }

  /** The "Opening - " placeholder of the recorded window and then the window
      itself each restart the timeout, so a window that keeps coming to the front
      is never moved. */
  lemma PlaceholderRefreshes(p: Pending, placeholder: Hwnd, current: int,
                             timeoutMs: int, t1: int, t2: int, title: Hwnd -> string)
    requires p.fromDesktop != current && t1 - p.openedTime < timeoutMs && t2 - t1 < timeoutMs
    requires IsOpeningPlaceholderOf(title, placeholder, p.hwnd)
    ensures var first := Step(p, placeholder, true, current, current, timeoutMs, t1, title);
      first == StepResult(p.(openedTime := t1), Refreshed) &&
      Step(first.next, p.hwnd, true, current, current, timeoutMs, t2, title) == StepResult(p.(openedTime := t2), Refreshed)
  {
  }
}
