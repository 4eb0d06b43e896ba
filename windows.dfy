/**
 * The manager's view of the host windowing system. Everything the C# code asks
 * the operating system or the desktop provider during one callback is captured
 * in a `Host` snapshot, so that the handlers become ordinary methods.
 */
module Windows {
  import opened Wrappers
  import opened GridNavigation

  /** A window handle (`IntPtr`); `NoWindow` is `IntPtr.Zero`. */
  type Hwnd = int
  const NoWindow: Hwnd := 0

  /** The identity of one virtual desktop as the provider hands it out. */
  type DesktopId = nat

  /** What the operating system answers during one callback.
      - foreground: `GetForegroundWindow()` on entry;
      - current: the provider's current desktop (`VirtualDesktop.Current`);
      - exeName: `GetWindowExeName` (None when the process cannot be opened);
      - title: `GetWindowText`;
      - desktopOf: the provider's desktop of a window (None when it has none);
      - isWindow: `IsWindow`;
      - browserZOrder: the windows of the browser's class that successive
        `FindWindowEx` calls return, topmost first;
      - moveSucceeds(k): whether the k-th `MoveToDesktop` call of this callback
        succeeds (k counts from 0). */
  datatype Host = Host(
    foreground: Hwnd,
    current: DesktopId,
    exeName: Hwnd -> Option<string>,
    title: Hwnd -> string,
    desktopOf: Hwnd -> Option<DesktopId>,
    isWindow: Hwnd -> bool,
    browserZOrder: seq<Hwnd>,
    moveSucceeds: nat -> bool)

  /** `FindWindowEx` returns real windows until it returns `IntPtr.Zero` at the end. */
  predicate ValidHost(host: Host)
  {
    forall i :: 0 <= i < |host.browserZOrder| ==> host.browserZOrder[i] != NoWindow
  }

  /** The browser that is kept in front on each desktop, when one is configured. */
  datatype BrowserInfo = BrowserInfo(exeName: string)

  /** The settings the manager reads. */
  datatype Settings = Settings(
    grid: Grid,
    moveOnNewWindowExeNames: Option<seq<string>>,
    moveOnNewWindowDetectTimeoutMs: int,
    browserToActivate: Option<BrowserInfo>,
    numPadKeysForNumbers: bool,
    fKeysForNumbers: bool)

  /** `VirtualDesktop.FromHwnd`: no desktop for `IntPtr.Zero`. */
  function FromHwnd(host: Host, hwnd: Hwnd): Option<DesktopId>
  {
    if hwnd == NoWindow then None else host.desktopOf(hwnd)
  }

  /** `ToUpper` on the ASCII letters: each lower-case letter becomes its
      upper-case partner, 32 code points lower, and every other character stays. */
  function Upper(s: string): (r: string)
    ensures |r| == |s|
    ensures forall i :: 0 <= i < |s| ==> ('a' <= s[i] <= 'z' <==> 'A' <= r[i] <= 'Z' && r[i] != s[i])
    ensures forall i :: 0 <= i < |s| && 'a' <= s[i] <= 'z' ==> r[i] as int == s[i] as int - 32
    ensures forall i :: 0 <= i < |s| && !('a' <= s[i] <= 'z') ==> r[i] == s[i]
  {
    seq(|s|, i requires 0 <= i < |s| =>
      if 'a' <= s[i] <= 'z' then (s[i] as int - 'a' as int + 'A' as int) as char else s[i])
  }

  /** Two executable names compared as `a.ToUpper() == b.ToUpper()`. */
  predicate SameName(a: string, b: string) { Upper(a) == Upper(b) }

  /** Two characters that differ at most in ASCII case: equal, or one a
      lower-case letter and the other its upper-case partner. */
  predicate SameLetter(x: char, y: char)
  {
    x == y ||
    ('a' <= x <= 'z' && y as int == x as int - 32) ||
    ('a' <= y <= 'z' && x as int == y as int - 32)
  }

  /** Names match exactly when they have the same length and agree character by
      character up to ASCII case. */
  lemma SameNameIgnoresCase(a: string, b: string)
    ensures SameName(a, b) <==> |a| == |b| && forall i :: 0 <= i < |a| ==> SameLetter(a[i], b[i])
  {
    if |a| == |b| {
      if forall i :: 0 <= i < |a| ==> SameLetter(a[i], b[i]) {
        forall i | 0 <= i < |a|
          ensures Upper(a)[i] == Upper(b)[i]
        {
          assert SameLetter(a[i], b[i]);
        }
      }
      if SameName(a, b) {
        forall i | 0 <= i < |a|
          ensures SameLetter(a[i], b[i])
        {
          assert Upper(a)[i] == Upper(b)[i];
        }
      }
    }
  }

  /** `IsWindowDefaultBrowser`: the window's executable is the configured browser. */
  predicate IsWindowDefaultBrowser(host: Host, browser: Option<BrowserInfo>, hwnd: Hwnd)
  {
    browser.Some? && host.exeName(hwnd).Some? && SameName(host.exeName(hwnd).value, browser.value.exeName)
  }

  /** `IsMoveOnNewWindowType`: the window's executable is one of those whose new
      windows are sent back to the desktop they were opened from. */
  predicate IsMoveOnNewWindowType(host: Host, names: Option<seq<string>>, hwnd: Hwnd)
  {
    host.exeName(hwnd).Some? && names.Some? &&
    exists i :: 0 <= i < |names.value| && SameName(names.value[i], host.exeName(hwnd).value)
  }

  /** The title a window shows while it is still being opened. */
  const OpeningPrefix: string := "Opening - "

  /** Under the window titles `title`, `hwnd` is the placeholder of the window
      `openedWindow` ("Opening - <title>"). */
  predicate IsOpeningPlaceholderOf(title: Hwnd -> string, hwnd: Hwnd, openedWindow: Hwnd)
  {
    title(hwnd) == OpeningPrefix + title(openedWindow)
  }

  /** The slots of `slots` that held `hwnd`, set to `NoWindow`; the rest as they were. */
  function Without(slots: seq<Hwnd>, hwnd: Hwnd): seq<Hwnd>
  {
    seq(|slots|, i requires 0 <= i < |slots| => if slots[i] == hwnd then NoWindow else slots[i])
  }

  /** After forgetting a real window and recording it in slot `t`, the window is
      in slot `t` and in no other slot, and every slot that held another window
      still holds it. */
  lemma ForgetThenRecord(slots: seq<Hwnd>, hwnd: Hwnd, t: int)
    requires hwnd != NoWindow && 0 <= t < |slots|
    ensures var after := Without(slots, hwnd)[t := hwnd];
      |after| == |slots| &&
      (forall i :: 0 <= i < |slots| ==> (after[i] == hwnd <==> i == t)) &&
      (forall i :: 0 <= i < |slots| && i != t && slots[i] != hwnd ==> after[i] == slots[i])
  {
  }

  /** There is nothing to forget about `NoWindow`. */
  lemma WithoutNoWindow(slots: seq<Hwnd>)
    ensures Without(slots, NoWindow) == slots
  {
  }

  /** Forgetting a window twice is forgetting it once. */
  lemma WithoutIdempotent(slots: seq<Hwnd>, hwnd: Hwnd)
    ensures Without(Without(slots, hwnd), hwnd) == Without(slots, hwnd)
  {
  }

  // ---------------------------------------------------------------------------
  // The browser search of `FindActivateBrowserWindow`

  /** The provider places window `hwnd` on `desktop`. */
  predicate OnDesktop(host: Host, hwnd: Hwnd, desktop: DesktopId)
  {
    FromHwnd(host, hwnd) == Some(desktop)
  }

  /** `zs[j]` is the topmost window of the browser. */
  ghost predicate TopBrowser(host: Host, browser: Option<BrowserInfo>, j: int)
  {
    var zs := host.browserZOrder;
    0 <= j < |zs| && IsWindowDefaultBrowser(host, browser, zs[j]) &&
    forall i :: 0 <= i < j ==> !IsWindowDefaultBrowser(host, browser, zs[i])
  }

  /** `zs[j]` is the topmost window of the browser on `desktop`. */
  ghost predicate TopBrowserOn(host: Host, browser: Option<BrowserInfo>, desktop: DesktopId, j: int)
  {
    var zs := host.browserZOrder;
    0 <= j < |zs| && IsWindowDefaultBrowser(host, browser, zs[j]) && OnDesktop(host, zs[j], desktop) &&
    forall i :: 0 <= i < j ==> !(IsWindowDefaultBrowser(host, browser, zs[i]) && OnDesktop(host, zs[i], desktop))
  }

  /** What the search answers: the topmost browser window on `desktop` when the
      topmost browser window overall is elsewhere, and `NoWindow` when there is
      none on `desktop` or the topmost one is already there. */
  ghost predicate BrowserSearchAnswer(host: Host, browser: Option<BrowserInfo>, desktop: DesktopId, r: Hwnd)
  {
    var zs := host.browserZOrder;
    (r != NoWindow ==> exists j :: TopBrowserOn(host, browser, desktop, j) && zs[j] == r && !TopBrowser(host, browser, j)) &&
    (r == NoWindow ==>
      (forall j :: 0 <= j < |zs| ==> !(IsWindowDefaultBrowser(host, browser, zs[j]) && OnDesktop(host, zs[j], desktop))) ||
      (exists j :: TopBrowser(host, browser, j) && OnDesktop(host, zs[j], desktop)))
  }

  /** The search has one answer, so `BrowserSearchAnswer` determines the window
      the manager activates. */
  lemma BrowserSearchAnswerUnique(host: Host, browser: Option<BrowserInfo>, desktop: DesktopId, r1: Hwnd, r2: Hwnd)
    requires ValidHost(host)
    requires BrowserSearchAnswer(host, browser, desktop, r1) && BrowserSearchAnswer(host, browser, desktop, r2)
    ensures r1 == r2
  {
    var zs := host.browserZOrder;
    if r1 != NoWindow {
      var j1 :| TopBrowserOn(host, browser, desktop, j1) && zs[j1] == r1 && !TopBrowser(host, browser, j1);
      TopBrowserOnAfterTopBrowser(host, browser, desktop, j1);
      if r2 != NoWindow {
        var j2 :| TopBrowserOn(host, browser, desktop, j2) && zs[j2] == r2 && !TopBrowser(host, browser, j2);
        TopBrowserOnIsUnique(host, browser, desktop, j1, j2);
      }
    } else if r2 != NoWindow {
      var j2 :| TopBrowserOn(host, browser, desktop, j2) && zs[j2] == r2 && !TopBrowser(host, browser, j2);
      TopBrowserOnAfterTopBrowser(host, browser, desktop, j2);
    }
  }

  lemma TopBrowserOnIsUnique(host: Host, browser: Option<BrowserInfo>, desktop: DesktopId, j1: int, j2: int)
    requires TopBrowserOn(host, browser, desktop, j1) && TopBrowserOn(host, browser, desktop, j2)
    ensures j1 == j2
  {
  }

  /** When the topmost browser window on `desktop` is not the topmost browser
      window, that one lies above it and elsewhere. */
  lemma TopBrowserOnAfterTopBrowser(host: Host, browser: Option<BrowserInfo>, desktop: DesktopId, j: int)
    requires TopBrowserOn(host, browser, desktop, j) && !TopBrowser(host, browser, j)
    ensures exists f :: TopBrowser(host, browser, f) && f < j && !OnDesktop(host, host.browserZOrder[f], desktop)
    ensures forall f :: TopBrowser(host, browser, f) ==> !OnDesktop(host, host.browserZOrder[f], desktop)
  {
    var zs := host.browserZOrder;
    var f := FirstBrowserBelow(host, browser, j);
    forall g | TopBrowser(host, browser, g)
      ensures !OnDesktop(host, zs[g], desktop)
    {
      assert g == f;
    }
  }

  /** The first browser window above position `j`, when `zs[j]` is a browser
      window that is not the first. */
  lemma FirstBrowserBelow(host: Host, browser: Option<BrowserInfo>, j: int) returns (f: int)
    requires 0 <= j < |host.browserZOrder| && IsWindowDefaultBrowser(host, browser, host.browserZOrder[j])
    requires !TopBrowser(host, browser, j)
    ensures TopBrowser(host, browser, f) && f < j
  {
    var zs := host.browserZOrder;
    f := 0;
    while !IsWindowDefaultBrowser(host, browser, zs[f])
      invariant 0 <= f <= j
      invariant forall i :: 0 <= i < f ==> !IsWindowDefaultBrowser(host, browser, zs[i])
      decreases j - f
    {
      f := f + 1;
    }
  }

  /** The do/while over `FindWindowEx` with `IterateFindTopLevelBrowserOnCurrentDesktop`:
      walk the browser-class windows from the top, stop with nothing to do when
      the topmost browser window is already on `desktop`, and otherwise stop at
      the topmost browser window on `desktop`, if any. */
  method FindTopBrowserOnDesktop(host: Host, browser: Option<BrowserInfo>, desktop: DesktopId)
    returns (topOnDesktop: Hwnd)
    requires ValidHost(host)
    ensures BrowserSearchAnswer(host, browser, desktop, topOnDesktop)
  {
    var zs := host.browserZOrder;
    var top := NoWindow;
    topOnDesktop := NoWindow;
    var last := 0;
    var notFinished := true;
    while notFinished
      invariant 0 <= last <= |zs|
      invariant top == NoWindow <==> forall i :: 0 <= i < last ==> !IsWindowDefaultBrowser(host, browser, zs[i])
      invariant top != NoWindow && notFinished ==>
        exists f :: TopBrowser(host, browser, f) && f < last && !OnDesktop(host, zs[f], desktop)
      invariant notFinished ==> topOnDesktop == NoWindow
      invariant notFinished ==>
        forall i :: 0 <= i < last ==> !(IsWindowDefaultBrowser(host, browser, zs[i]) && OnDesktop(host, zs[i], desktop))
      invariant !notFinished ==> BrowserSearchAnswer(host, browser, desktop, topOnDesktop)
      decreases |zs| - last, notFinished
    {
      var window := if last < |zs| then zs[last] else NoWindow;
      if window == NoWindow {
        // The z-order is exhausted.
        notFinished := false;
      } else {
        last := last + 1;
        var stop := false;
        if top == NoWindow && IsWindowDefaultBrowser(host, browser, window) {
          top := window;
          assert TopBrowser(host, browser, last - 1);
          if OnDesktop(host, window, desktop) {
            // Already the topmost browser window: nothing to do.
            topOnDesktop := NoWindow;
            stop := true;
          }
        }
        if !stop && OnDesktop(host, window, desktop) && IsWindowDefaultBrowser(host, browser, window) {
          topOnDesktop := window;
          assert TopBrowserOn(host, browser, desktop, last - 1);
          stop := true;
        }
        notFinished := !stop;
      }
    }
  }
}
