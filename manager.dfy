/**
 * `VirtualDesktopGridManager`: the desktops of the grid, the window last active
 * on each of them, the browser window last active on each of them, and the
 * handlers that keep these up to date as the user switches desktops, moves
 * windows and brings windows to the front.
 *
 * `started` stands for `desktops != null`: it holds between a successful `Start`
 * and the next `Stop`. While it is false the arrays of the C# object are `null`;
 * here they stay allocated but unused, and the handlers that would dereference
 * them report a fault instead.
 */
module Manager {
  import opened Wrappers
  import opened GridNavigation
  import opened Windows
  import opened Relocation
  import opened Desktops

  /** How a `Move` ended: no foreground window, a `NullReferenceException`
      because the manager is stopped, or a move that worked or failed. */
  datatype MoveOutcome = NoForegroundWindow | Faulted | Moved | MoveFailed

  /** Everything a handler may change, for stating that it changed nothing. */
  datatype Snapshot = Snapshot(
    started: bool, activeWindows: seq<Hwnd>, lastActiveBrowserWindows: seq<Hwnd>,
    pending: Pending, movingWindow: Hwnd, activatingBrowserWindow: Hwnd, current: int)

  /** The loops of `Move` and `MoveWindow`: every slot holding `hwnd` is set to
      `NoWindow`. */
  method Forget(a: array<Hwnd>, hwnd: Hwnd)
    modifies a
    ensures a[..] == Without(old(a[..]), hwnd)
  {
    var i := 0;
    while i < a.Length
      invariant 0 <= i <= a.Length
      invariant forall k :: 0 <= k < i ==> a[k] == if old(a[k]) == hwnd then NoWindow else old(a[k])
      invariant forall k :: i <= k < a.Length ==> a[k] == old(a[k])
    {
      if a[i] == hwnd {
        a[i] := NoWindow;
      }
      i := i + 1;
    }
  }

  /** `ActivateWindow`: a window on the displayed desktop is brought to the
      front, and the answer says whether it was. */
  predicate ActivateWindow(host: Host, hwnd: Hwnd)
  {
    hwnd != NoWindow && FromHwnd(host, hwnd) == Some(host.current)
  }

  /** The two loops of `Start`: remove the last desktop while there are more
      than `n`, then create desktops while there are fewer. */
  method ReconcileDesktops(provider: DesktopProvider, n: int)
    requires provider.Valid() && n >= 1
    modifies provider
    ensures provider.Valid() && |provider.desktops| == n
    ensures |old(provider.desktops)| >= n ==> provider.desktops == old(provider.desktops)[..n]
    ensures |old(provider.desktops)| < n ==>
      old(provider.desktops) <= provider.desktops &&
      forall i :: |old(provider.desktops)| <= i < n ==> provider.desktops[i] !in old(provider.desktops)
    ensures provider.current ==
      if old(provider.current) in provider.desktops then old(provider.current) else old(provider.desktops)[0]
  {
    var curDesktops := provider.desktops;
    ghost var original := provider.desktops;
    ghost var shown := provider.current;
    while |curDesktops| > n
      invariant provider.Valid() && curDesktops == provider.desktops
      invariant |curDesktops| <= |original| && curDesktops == original[..|curDesktops|]
      invariant |original| >= n ==> |curDesktops| >= n
      invariant |original| < n ==> curDesktops == original
      invariant |curDesktops| >= 1 && curDesktops[0] == original[0]
      invariant provider.current == if shown in curDesktops then shown else original[0]
      decreases |curDesktops|
    {
      var last := curDesktops[|curDesktops| - 1];
      provider.Remove(last);
      EraseLast(curDesktops);
      curDesktops := Erase(curDesktops, last);
    }
    while |curDesktops| < n
      invariant provider.Valid() && curDesktops == provider.desktops
      invariant |original| >= n ==> curDesktops == original[..n]
      invariant |original| < n ==> |curDesktops| <= n && original <= curDesktops
      invariant |original| < n ==> forall i :: |original| <= i < |curDesktops| ==> curDesktops[i] !in original
      invariant |curDesktops| >= 1 && curDesktops[0] == original[0]
      invariant provider.current == if shown in curDesktops then shown else original[0]
      decreases n - |curDesktops|
    {
      var d := provider.Create();
      curDesktops := curDesktops + [d];
    }
  }

  class GridManager {
    const settings: Settings
    var started: bool
    var desktops: seq<DesktopId>
    var desktopIdLookup: map<DesktopId, int>
    var activeWindows: array<Hwnd>
    var lastActiveBrowserWindows: array<Hwnd>
    var lastMoveOnNewWindowHwnd: Hwnd
    var lastMoveOnNewWindowOpenedFromDesktop: int
    var lastMoveOnNewWindowOpenedTime: int
    var movingWindow: Hwnd
    var activatingBrowserWindow: Hwnd
    var current: int

    /** The grid has a cell, `Current` is one of them, and while started there
        is one desktop, one active-window slot and one browser slot per cell,
        numbered by the lookup. */
    ghost predicate Valid()
      reads this
    {
      ValidGrid(settings.grid) && InGrid(settings.grid, current) &&
      activeWindows != lastActiveBrowserWindows &&
      (started ==>
        |desktops| == DesktopCount(settings.grid) &&
        activeWindows.Length == |desktops| && lastActiveBrowserWindows.Length == |desktops| &&
        IsLookupOf(desktopIdLookup, desktops))
    }

    ghost function State(): Snapshot
      reads this, activeWindows, lastActiveBrowserWindows
    {
      Snapshot(started, activeWindows[..], lastActiveBrowserWindows[..], PendingRecord(),
               movingWindow, activatingBrowserWindow, current)
    }

    /** The three `lastMoveOnNewWindow*` fields. */
    function PendingRecord(): Pending
      reads this
    {
      Pending(lastMoveOnNewWindowHwnd, lastMoveOnNewWindowOpenedFromDesktop, lastMoveOnNewWindowOpenedTime)
    }

    /** The manager as the constructor leaves it: `Start` has run. */
    constructor (settings: Settings, provider: DesktopProvider)
      requires ValidGrid(settings.grid) && provider.Valid()
      modifies provider
      ensures Valid() && provider.Valid() && this.settings == settings
      ensures PendingRecord() == NoPending
      ensures movingWindow == NoWindow && activatingBrowserWindow == NoWindow
      ensures started == provider.supported
      ensures started ==> desktops == provider.desktops && current == desktopIdLookup[provider.current]
      ensures started ==> forall i :: 0 <= i < |desktops| ==>
        activeWindows[i] == NoWindow && lastActiveBrowserWindows[i] == NoWindow
      ensures started ==> fresh(activeWindows) && fresh(lastActiveBrowserWindows)
      ensures started ==>
        var n := DesktopCount(settings.grid);
        (|old(provider.desktops)| >= n ==> desktops == old(provider.desktops)[..n]) &&
        (|old(provider.desktops)| < n ==>
          old(provider.desktops) <= desktops &&
          forall i :: |old(provider.desktops)| <= i < n ==> desktops[i] !in old(provider.desktops))
      ensures started ==>
        provider.current == (if old(provider.current) in desktops then old(provider.current) else old(provider.desktops)[0])
      ensures !started ==> current == 0 && unchanged(provider)
    {
      this.settings := settings;
      started := false;
      desktops := [];
      desktopIdLookup := map[];
      activeWindows := new Hwnd[0];
      lastActiveBrowserWindows := new Hwnd[0];
      lastMoveOnNewWindowHwnd := NoWindow;
      lastMoveOnNewWindowOpenedFromDesktop := 0;
      lastMoveOnNewWindowOpenedTime := MinValue;
      movingWindow := NoWindow;
      activatingBrowserWindow := NoWindow;
      current := 0;
      new;
      Start(provider);
    }

    /** `Start`: trim the provider's desktops from the end, or add new ones at
        the end, until there is one per cell; then number them in order, show
        the provider's current desktop and clear both tables. When the provider
        is not supported the first call throws, the exception is swallowed and
        nothing changes. */
    method Start(provider: DesktopProvider)
      requires Valid() && provider.Valid()
      modifies this`started, this`desktops, this`desktopIdLookup, this`activeWindows,
               this`lastActiveBrowserWindows, this`current, provider
      ensures Valid() && provider.Valid()
      ensures !provider.supported ==> State() == old(State()) && desktops == old(desktops) && unchanged(provider)
      ensures provider.supported ==>
        started && desktops == provider.desktops && current == desktopIdLookup[provider.current] &&
        fresh(activeWindows) && fresh(lastActiveBrowserWindows)
      ensures provider.supported ==>
        var n := DesktopCount(settings.grid);
        (|old(provider.desktops)| >= n ==> desktops == old(provider.desktops)[..n]) &&
        (|old(provider.desktops)| < n ==>
          old(provider.desktops) <= desktops &&
          forall i :: |old(provider.desktops)| <= i < n ==> desktops[i] !in old(provider.desktops))
      ensures provider.supported ==>
        provider.current == (if old(provider.current) in desktops then old(provider.current) else old(provider.desktops)[0])
      ensures provider.supported ==> forall i :: 0 <= i < |desktops| ==>
        activeWindows[i] == NoWindow && lastActiveBrowserWindows[i] == NoWindow
    {
      if !provider.supported {
        return;
      }
      ReconcileDesktops(provider, DesktopCount(settings.grid));
      desktops := provider.desktops;
      desktopIdLookup := BuildLookup(desktops);
      LookupIsBijection(desktopIdLookup, desktops);
      current := desktopIdLookup[provider.current];
      activeWindows := new Hwnd[|desktops|](_ => NoWindow);
      lastActiveBrowserWindows := new Hwnd[|desktops|](_ => NoWindow);
      started := true;
    }

    /** `Stop`: the desktops, the lookup and both tables are dropped. */
    method Stop()
      requires Valid()
      modifies this`started
      ensures Valid() && !started
    {
      started := false;
    }

    /** `Restart`: `Stop` then `Start`. */
    method Restart(provider: DesktopProvider)
      requires Valid() && provider.Valid()
      modifies this`started, this`desktops, this`desktopIdLookup, this`activeWindows,
               this`lastActiveBrowserWindows, this`current, provider
      ensures Valid() && provider.Valid()
      ensures started == provider.supported
      ensures started ==> desktops == provider.desktops && current == desktopIdLookup[provider.current]
      ensures started ==> forall i :: 0 <= i < |desktops| ==>
        activeWindows[i] == NoWindow && lastActiveBrowserWindows[i] == NoWindow
      ensures started ==> fresh(activeWindows) && fresh(lastActiveBrowserWindows)
      ensures started ==>
        var n := DesktopCount(settings.grid);
        (|old(provider.desktops)| >= n ==> desktops == old(provider.desktops)[..n]) &&
        (|old(provider.desktops)| < n ==>
          old(provider.desktops) <= desktops &&
          forall i :: |old(provider.desktops)| <= i < n ==> desktops[i] !in old(provider.desktops))
      ensures started ==>
        provider.current == (if old(provider.current) in desktops then old(provider.current) else old(provider.desktops)[0])
      ensures !provider.supported ==> current == old(current) && desktops == old(desktops) && unchanged(provider)
    {
      Stop();
      Start(provider);
    }

    /** The `Current` setter: only a started manager changes desktop. */
    method SetCurrent(index: int)
      requires Valid() && InGrid(settings.grid, index)
      modifies this`current
      ensures Valid()
      ensures current == if started then index else old(current)
    {
      if started {
        current := index;
      }
    }

    /** `Switch`: remember the foreground window as the active window of the
        desktop being left (unless it is the browser window the manager itself
        is activating), then show desktop `index`. */
    method Switch(index: int, host: Host) returns (faulted: bool)
      requires Valid() && InGrid(settings.grid, index)
      modifies this`current, activeWindows
      ensures Valid()
      ensures faulted <==> !started && host.foreground != activatingBrowserWindow
      ensures activeWindows[..] ==
        if started && host.foreground != activatingBrowserWindow
        then old(activeWindows[..])[old(current) := host.foreground]
        else old(activeWindows[..])
      ensures current == if started && !faulted then index else old(current)
    {
      faulted := false;
      var activeHwnd := host.foreground;
      if activeHwnd != activatingBrowserWindow {
        if !started {
          // `activeWindows` is null.
          faulted := true;
          return;
        }
        activeWindows[current] := activeHwnd;
      }
      SetCurrent(index);
    }

    /** `MoveWindow`: forget `hwnd` on every desktop, mark it as the window being
        moved, and ask the provider to move it to desktop `index` (`ok` is whether
        that call succeeds; an index outside the desktops fails too). On success
        it becomes the active window of `index`, which is shown. */
    method MoveWindow(hwnd: Hwnd, index: int, ok: bool) returns (moved: bool)
      requires Valid() && started
      modifies this`movingWindow, this`current, activeWindows
      ensures Valid()
      ensures moved <==> hwnd != NoWindow && ok && 0 <= index < |desktops|
      ensures movingWindow == if hwnd != NoWindow then hwnd else old(movingWindow)
      ensures activeWindows[..] ==
        if moved then Without(old(activeWindows[..]), hwnd)[index := hwnd]
        else Without(old(activeWindows[..]), hwnd)
      ensures current == if moved then index else old(current)
    {
      moved := false;
      if hwnd != NoWindow {
        Forget(activeWindows, hwnd);
        movingWindow := hwnd;
        if ok && 0 <= index < |desktops| {
          activeWindows[index] := hwnd;
          SetCurrent(index);
          moved := true;
        }
      } else {
        WithoutNoWindow(activeWindows[..]);
      }
    }

    /** `Move`: take the foreground window to desktop `index`, first forgetting
        it as the last active browser window of every desktop when it is the
        browser. An index off the grid fails inside `MoveWindow`, after the
        window has been forgotten. */
    method Move(index: int, host: Host) returns (outcome: MoveOutcome)
      requires Valid()
      modifies this`movingWindow, this`current, activeWindows, lastActiveBrowserWindows
      ensures Valid()
      ensures host.foreground == NoWindow ==> outcome == NoForegroundWindow
      ensures host.foreground != NoWindow && !started ==> outcome == Faulted
      ensures outcome == NoForegroundWindow || outcome == Faulted ==> State() == old(State())
      ensures host.foreground != NoWindow && started ==>
        var hwnd := host.foreground;
        var moved := host.moveSucceeds(0) && InGrid(settings.grid, index);
        outcome == (if moved then Moved else MoveFailed) &&
        lastActiveBrowserWindows[..] ==
          (if IsWindowDefaultBrowser(host, settings.browserToActivate, hwnd)
           then Without(old(lastActiveBrowserWindows[..]), hwnd)
           else old(lastActiveBrowserWindows[..])) &&
        activeWindows[..] ==
          (if moved then Without(old(activeWindows[..]), hwnd)[index := hwnd]
           else Without(old(activeWindows[..]), hwnd)) &&
        movingWindow == hwnd &&
        current == (if moved then index else old(current))
    {
      var hwnd := host.foreground;
      if hwnd == NoWindow {
        // "Failed to get foreground window".
        return NoForegroundWindow;
      }
      if !started {
        // `lastActiveBrowserWindows` or `activeWindows` is null.
        return Faulted;
      }
      if IsWindowDefaultBrowser(host, settings.browserToActivate, hwnd) {
        Forget(lastActiveBrowserWindows, hwnd);
      }
      var moved := MoveWindow(hwnd, index, host.moveSucceeds(0));
      outcome := if moved then Moved else MoveFailed;
    }

    /** The retry loop of `ForegroundWindowChanged`: call `MoveWindow` until it
        succeeds or 100 ms waits have brought `retryTime` to the timeout plus
        300 ms. Attempt `k` succeeds when `host.moveSucceeds(k)`. */
    method MoveNewWindow(hwnd: Hwnd, target: int, host: Host) returns (attempts: nat, moved: bool)
      requires Valid() && started
      modifies this`movingWindow, this`current, activeWindows
      ensures Valid()
      ensures 1 <= attempts <= RetryLimit(settings.moveOnNewWindowDetectTimeoutMs) + 1
      ensures moved ==> host.moveSucceeds(attempts - 1)
      ensures forall k :: 0 <= k < attempts - 1 ==> !host.moveSucceeds(k) || hwnd == NoWindow || !(0 <= target < |desktops|)
      ensures !moved ==> attempts == RetryLimit(settings.moveOnNewWindowDetectTimeoutMs) + 1
      ensures moved <==> (hwnd != NoWindow && 0 <= target < |desktops| &&
        exists k :: 0 <= k <= RetryLimit(settings.moveOnNewWindowDetectTimeoutMs) && host.moveSucceeds(k))
      ensures movingWindow == if hwnd != NoWindow then hwnd else old(movingWindow)
      ensures activeWindows[..] ==
        if moved then Without(old(activeWindows[..]), hwnd)[target := hwnd]
        else Without(old(activeWindows[..]), hwnd)
      ensures current == if moved then target else old(current)
    {
      var limit := settings.moveOnNewWindowDetectTimeoutMs + 300;
      var retryTime := 0;
      moved := MoveWindow(hwnd, target, host.moveSucceeds(0));
      attempts := 1;
      while !moved && retryTime < limit
        invariant Valid() && started
        invariant 1 <= attempts && retryTime == 100 * (attempts - 1)
        invariant attempts <= RetryLimit(settings.moveOnNewWindowDetectTimeoutMs) + 1
        invariant moved <==> hwnd != NoWindow && 0 <= target < |desktops| && host.moveSucceeds(attempts - 1)
        invariant forall k :: 0 <= k < attempts - 1 ==> !host.moveSucceeds(k) || hwnd == NoWindow || !(0 <= target < |desktops|)
        invariant movingWindow == if hwnd != NoWindow then hwnd else old(movingWindow)
        invariant activeWindows[..] ==
          if moved then Without(old(activeWindows[..]), hwnd)[target := hwnd]
          else Without(old(activeWindows[..]), hwnd)
        invariant current == if moved then target else old(current)
        decreases limit - retryTime
      {
        // Thread.Sleep(100): the provider needs time to see the new window.
        retryTime := retryTime + 100;
        WithoutIdempotent(old(activeWindows[..]), hwnd);
        moved := MoveWindow(hwnd, target, host.moveSucceeds(attempts));
        attempts := attempts + 1;
      }
      if moved {
        assert 0 <= attempts - 1 <= RetryLimit(settings.moveOnNewWindowDetectTimeoutMs);
      }
    }

    /** The desktop index `ForegroundWindowChanged` gives `hwnd`: that of its
        own desktop, or the current one when it has none. */
    function WindowDesktopIndex(host: Host, hwnd: Hwnd): int
      reads this
      requires FromHwnd(host, hwnd).Some? ==> FromHwnd(host, hwnd).value in desktopIdLookup
    {
      match FromHwnd(host, hwnd)
      case None => current
      case Some(d) => desktopIdLookup[d]
    }

    /** What the "move on new window" record makes of this foreground change. */
    function RelocationStep(host: Host, hwnd: Hwnd, now: int): StepResult
      reads this
      requires FromHwnd(host, hwnd).Some? ==> FromHwnd(host, hwnd).value in desktopIdLookup
    {
      Step(PendingRecord(), hwnd, IsMoveOnNewWindowType(host, settings.moveOnNewWindowExeNames, hwnd),
           WindowDesktopIndex(host, hwnd), current, settings.moveOnNewWindowDetectTimeoutMs, now, host.title)
    }

    /** `ForegroundWindowChanged`: window `hwnd` came to the front at `now`.
        A stopped manager ignores it; a window on a desktop the lookup does not
        know throws before anything changes. Otherwise the "move on new window"
        record is consulted (`RelocationStep`), and unless it refreshed or moved
        the window, `hwnd` becomes the active window of its desktop (when it has
        one, no move is under way and it is not the browser window being
        activated) and, when it is the browser or the window being activated,
        the last active browser window of its desktop. */
    method ForegroundWindowChanged(hwnd: Hwnd, host: Host, now: int) returns (thrown: bool)
      requires Valid()
      modifies this`lastMoveOnNewWindowHwnd, this`lastMoveOnNewWindowOpenedFromDesktop,
               this`lastMoveOnNewWindowOpenedTime, this`movingWindow, this`current,
               this`activatingBrowserWindow, activeWindows, lastActiveBrowserWindows
      ensures Valid()
      ensures thrown <==> old(started) && FromHwnd(host, hwnd).Some? && FromHwnd(host, hwnd).value !in desktopIdLookup
      ensures !started || thrown ==> State() == old(State())
      ensures started && !thrown ==> PendingRecord() == old(RelocationStep(host, hwnd, now)).next
      ensures started && !thrown && old(RelocationStep(host, hwnd, now)).reaction == Proceed ==>
        var d := old(WindowDesktopIndex(host, hwnd));
        0 <= d < |desktops| &&
        activeWindows[..] ==
          (if FromHwnd(host, hwnd).Some? && old(movingWindow) == NoWindow && hwnd != old(activatingBrowserWindow)
           then old(activeWindows[..])[d := hwnd] else old(activeWindows[..])) &&
        lastActiveBrowserWindows[..] ==
          (if hwnd == old(activatingBrowserWindow) || IsWindowDefaultBrowser(host, settings.browserToActivate, hwnd)
           then old(lastActiveBrowserWindows[..])[d := hwnd] else old(lastActiveBrowserWindows[..])) &&
        activatingBrowserWindow == (if hwnd == old(activatingBrowserWindow) then NoWindow else old(activatingBrowserWindow)) &&
        movingWindow == old(movingWindow) && current == old(current)
      ensures started && !thrown && old(RelocationStep(host, hwnd, now)).reaction == Refreshed ==>
        activeWindows[..] == old(activeWindows[..]) && lastActiveBrowserWindows[..] == old(lastActiveBrowserWindows[..]) &&
        activatingBrowserWindow == old(activatingBrowserWindow) &&
        movingWindow == old(movingWindow) && current == old(current)
      ensures started && !thrown && old(RelocationStep(host, hwnd, now)).reaction.MoveTo? ==>
        var target := old(RelocationStep(host, hwnd, now)).reaction.target;
        var moved := hwnd != NoWindow && 0 <= target < |desktops| &&
          exists k :: 0 <= k <= RetryLimit(settings.moveOnNewWindowDetectTimeoutMs) && host.moveSucceeds(k);
        activeWindows[..] ==
          (if moved then Without(old(activeWindows[..]), hwnd)[target := hwnd]
           else Without(old(activeWindows[..]), hwnd)) &&
        lastActiveBrowserWindows[..] == old(lastActiveBrowserWindows[..]) &&
        activatingBrowserWindow == old(activatingBrowserWindow) &&
        movingWindow == (if hwnd != NoWindow then hwnd else old(movingWindow)) &&
        current == (if moved then target else old(current))
    {
      thrown := false;
      if !started {
        return;
      }
      var windowDesktopId := current;
      var windowDesktop := FromHwnd(host, hwnd);
      if windowDesktop.Some? {
        if windowDesktop.value !in desktopIdLookup {
          // KeyNotFoundException.
          thrown := true;
          return;
        }
        windowDesktopId := desktopIdLookup[windowDesktop.value];
      }
      LookupIsBijection(desktopIdLookup, desktops);

      var reaction := ConsultRecord(hwnd, host, now, windowDesktopId);
      match reaction {
        case Refreshed =>
          return;
        case MoveTo(target) =>
          var attempts, moved := MoveNewWindow(hwnd, target, host);
          return;
        case Proceed =>
      }
      RecordForeground(hwnd, host, windowDesktopId, windowDesktop.Some?);
    }

    /** The "move on new window" part of `ForegroundWindowChanged` for window
        `hwnd` on the desktop numbered `windowDesktopId`: update the record as
        `Step` says and report how the handler goes on. */
    method ConsultRecord(hwnd: Hwnd, host: Host, now: int, windowDesktopId: int) returns (reaction: Reaction)
      modifies this`lastMoveOnNewWindowHwnd, this`lastMoveOnNewWindowOpenedFromDesktop, this`lastMoveOnNewWindowOpenedTime
      ensures var step := Step(old(PendingRecord()), hwnd, IsMoveOnNewWindowType(host, settings.moveOnNewWindowExeNames, hwnd),
                               windowDesktopId, current, settings.moveOnNewWindowDetectTimeoutMs, now, host.title);
        PendingRecord() == step.next && reaction == step.reaction
    {
      reaction := Proceed;
      if IsMoveOnNewWindowType(host, settings.moveOnNewWindowExeNames, hwnd) {
        if windowDesktopId != current {
          lastMoveOnNewWindowHwnd := hwnd;
          lastMoveOnNewWindowOpenedFromDesktop := current;
          lastMoveOnNewWindowOpenedTime := now;
        } else {
          var delay := now - lastMoveOnNewWindowOpenedTime;
          if delay < settings.moveOnNewWindowDetectTimeoutMs && lastMoveOnNewWindowOpenedFromDesktop != current {
            if lastMoveOnNewWindowHwnd == hwnd || IsOpeningPlaceholderOf(host.title, hwnd, lastMoveOnNewWindowHwnd) {
              // Reset the timeout.
              lastMoveOnNewWindowOpenedTime := now;
              reaction := Refreshed;
            } else {
              lastMoveOnNewWindowHwnd := NoWindow;
              lastMoveOnNewWindowOpenedTime := MinValue;
              reaction := MoveTo(lastMoveOnNewWindowOpenedFromDesktop);
            }
          } else if lastMoveOnNewWindowOpenedTime != MinValue {
            // Timed out.
            lastMoveOnNewWindowOpenedTime := MinValue;
          }
        }
      }
    }

    /** The end of `ForegroundWindowChanged`: `hwnd` came to the front on the
        desktop numbered `index` (`resolved` says whether it has a desktop of its
        own, or `index` is just `Current`). */
    method RecordForeground(hwnd: Hwnd, host: Host, index: int, resolved: bool)
      requires Valid() && started && 0 <= index < |desktops|
      modifies this`activatingBrowserWindow, activeWindows, lastActiveBrowserWindows
      ensures Valid()
      ensures activeWindows[..] ==
        if resolved && movingWindow == NoWindow && hwnd != old(activatingBrowserWindow)
        then old(activeWindows[..])[index := hwnd] else old(activeWindows[..])
      ensures lastActiveBrowserWindows[..] ==
        if hwnd == old(activatingBrowserWindow) || IsWindowDefaultBrowser(host, settings.browserToActivate, hwnd)
        then old(lastActiveBrowserWindows[..])[index := hwnd] else old(lastActiveBrowserWindows[..])
      ensures activatingBrowserWindow == if hwnd == old(activatingBrowserWindow) then NoWindow else old(activatingBrowserWindow)
    {
      if resolved && movingWindow == NoWindow && hwnd != activatingBrowserWindow {
        activeWindows[index] := hwnd;
      }
      if hwnd == activatingBrowserWindow || IsWindowDefaultBrowser(host, settings.browserToActivate, hwnd) {
        lastActiveBrowserWindows[index] := hwnd;
      }
      if hwnd == activatingBrowserWindow {
        activatingBrowserWindow := NoWindow;
      }
    }

    /** `hwnd` is a window whose desktop the lookup numbers `index`. */
    predicate KnownOnDesktop(host: Host, hwnd: Hwnd, index: int)
      reads this
    {
      host.isWindow(hwnd) && FromHwnd(host, hwnd).Some? &&
      FromHwnd(host, hwnd).value in desktopIdLookup && desktopIdLookup[FromHwnd(host, hwnd).value] == index
    }

    /** `hwnd` is a window on a desktop the lookup does not know. */
    predicate OnUnknownDesktop(host: Host, hwnd: Hwnd)
      reads this
    {
      host.isWindow(hwnd) && FromHwnd(host, hwnd).Some? && FromHwnd(host, hwnd).value !in desktopIdLookup
    }

    /** `FindActivateBrowserWindow`: activate the recorded browser window `hwnd`
        when it is still a window on the current desktop; otherwise search the
        browser windows from the top (`FindTopBrowserOnDesktop`) and activate the
        answer, if any. Looking up the desktop of a recorded window on an unknown
        desktop throws. */
    method FindActivateBrowserWindow(hwnd: Hwnd, browser: BrowserInfo, host: Host) returns (thrown: bool, found: bool)
      requires Valid() && started && ValidHost(host)
      modifies this`activatingBrowserWindow
      ensures thrown <==> OnUnknownDesktop(host, hwnd)
      ensures thrown ==> !found && activatingBrowserWindow == old(activatingBrowserWindow)
      ensures KnownOnDesktop(host, hwnd, current) ==> found && activatingBrowserWindow == hwnd
      ensures !thrown && !KnownOnDesktop(host, hwnd, current) ==>
        0 <= current < |desktops| &&
        (found ==> (activatingBrowserWindow != NoWindow &&
          BrowserSearchAnswer(host, Some(browser), desktops[current], activatingBrowserWindow))) &&
        (!found ==> (activatingBrowserWindow == old(activatingBrowserWindow) &&
          BrowserSearchAnswer(host, Some(browser), desktops[current], NoWindow)))
    {
      thrown, found := false, false;
      if host.isWindow(hwnd) {
        var desktop := FromHwnd(host, hwnd);
        if desktop.Some? {
          if desktop.value !in desktopIdLookup {
            // KeyNotFoundException.
            thrown := true;
            return;
          }
          if desktopIdLookup[desktop.value] == current {
            // ActivateBrowserWindow.
            activatingBrowserWindow := hwnd;
            found := true;
            return;
          }
        }
      }
      var topOnDesktop := FindTopBrowserOnDesktop(host, Some(browser), desktops[current]);
      if topOnDesktop != NoWindow {
        activatingBrowserWindow := topOnDesktop;
        found := true;
      }
    }

    /** The focus is put back after a desktop change unless the window being
        moved is the browser. */
    predicate RestoresFocus(host: Host)
      reads this
    {
      movingWindow == NoWindow || !IsWindowDefaultBrowser(host, settings.browserToActivate, movingWindow)
    }

    /** `VirtualDesktop_CurrentChanged`: the provider now shows `host.current`.
        The manager takes its index as `Current`; unless a browser window is
        being moved, it brings the desktop's last active browser window forward
        when that is not also the desktop's last active window, then gives the
        focus to the desktop's last active window if that is on the shown
        desktop, and otherwise back to the window that had it (`focus`). Last,
        no window is being moved any more. */
    method CurrentChanged(host: Host) returns (thrown: bool, focus: Hwnd)
      requires Valid() && started && ValidHost(host)
      modifies this`current, this`movingWindow, this`activatingBrowserWindow
      ensures Valid()
      ensures host.current !in desktopIdLookup ==> thrown && focus == host.foreground && State() == old(State())
      ensures host.current in desktopIdLookup ==>
        current == desktopIdLookup[host.current] && 0 <= current < |desktops| && desktops[current] == host.current
      ensures host.current in desktopIdLookup ==>
        var c := desktopIdLookup[host.current];
        var searches := old(RestoresFocus(host)) && settings.browserToActivate.Some? &&
                        lastActiveBrowserWindows[c] != activeWindows[c];
        (thrown <==> searches && OnUnknownDesktop(host, lastActiveBrowserWindows[c])) &&
        (!searches || thrown ==> activatingBrowserWindow == old(activatingBrowserWindow)) &&
        (searches && KnownOnDesktop(host, lastActiveBrowserWindows[c], c) ==>
          activatingBrowserWindow == lastActiveBrowserWindows[c]) &&
        (searches && !thrown && !KnownOnDesktop(host, lastActiveBrowserWindows[c], c) ==>
          (activatingBrowserWindow == old(activatingBrowserWindow) &&
           BrowserSearchAnswer(host, settings.browserToActivate, host.current, NoWindow)) ||
          (activatingBrowserWindow != NoWindow &&
           BrowserSearchAnswer(host, settings.browserToActivate, host.current, activatingBrowserWindow))) &&
        focus == (if old(RestoresFocus(host)) && !thrown && ActivateWindow(host, activeWindows[c])
                  then activeWindows[c] else host.foreground) &&
        movingWindow == (if thrown then old(movingWindow) else NoWindow)
    {
      focus := host.foreground;
      thrown := false;
      if host.current !in desktopIdLookup {
        // KeyNotFoundException.
        thrown := true;
        return;
      }
      LookupIsBijection(desktopIdLookup, desktops);
      current := desktopIdLookup[host.current];
      var browserInfo := settings.browserToActivate;
      if movingWindow == NoWindow || !IsWindowDefaultBrowser(host, browserInfo, movingWindow) {
        var fgHwnd := host.foreground;
        var lastActiveWindow := activeWindows[current];
        if browserInfo.Some? {
          if lastActiveBrowserWindows[current] != activeWindows[current] {
            var found;
            thrown, found := FindActivateBrowserWindow(lastActiveBrowserWindows[current], browserInfo.value, host);
            if thrown {
              return;
            }
          }
        }
        if ActivateWindow(host, lastActiveWindow) {
          focus := lastActiveWindow;
        } else {
          // Give the focus back if the browser took it.
          focus := fgHwnd;
        }
      }
      movingWindow := NoWindow;
    }
  }
}
