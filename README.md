# VirtualDesktopGridSwitcher: the grid manager in Dafny

VirtualDesktopGridSwitcher arranges the Windows 10 virtual desktops on a
`Rows x Columns` grid. Hotkeys switch to the neighbouring desktop (optionally
wrapping around at the edges) or to a numbered desktop. Other hotkeys take the
foreground window along. The manager remembers the window last active on each
desktop and gives it the focus again when the user comes back. When a browser is
configured, it also remembers the browser window last active on each desktop and
brings that one forward. Programs such as browsers sometimes open a new window on
the desktop where they already have one; for the programs listed in the settings,
that new window is sent back to the desktop the user opened it from.

This project models `VirtualDesktopGridManager` in Dafny. Its modules:

- `CSharpInt`: C#'s truncating `/` and `%` on `int`, and how they relate to
  Dafny's Euclidean operators.
- `GridNavigation`: `DesktopCount`, `ColumnOf`, `RowOf` and the `Left`, `Right`,
  `Up` and `Down` getters, as functions of the grid and `Current`.
- `HotKeys`: the desktop each number hotkey targets, including the keypad layout.
- `Windows`:
  - window handles (`IntPtr.Zero` is `NoWindow`);
  - a `Host` snapshot of what the operating system and the desktop provider
    answer during one callback;
  - the settings;
  - the executable-name checks;
  - the scan over the browser windows in z-order.
- `Relocation`: the "move on new window" record, as a step function `Step`.
- `Desktops`: the provider's ordered list of desktops (`Create`, `Remove`), and the
  desktop-to-index lookup that `Start` builds.
- `Manager`: the class `GridManager`. Its fields are those of the C# class, and it
  keeps the two per-desktop tables `activeWindows` and
  `lastActiveBrowserWindows` as arrays. Its methods are the handlers:
  - `Start`, `Stop` and `Restart`;
  - the `Current` setter;
  - `Switch`, `Move` and `MoveWindow`;
  - `ForegroundWindowChanged`;
  - `VirtualDesktop_CurrentChanged`, named `CurrentChanged` here.

Each method's postcondition gives its whole new state in terms of the old state
and the `Host` snapshot. The relocation part of `ForegroundWindowChanged` is tied
to `Relocation.Step`, and the properties of that record are lemmas about `Step`.

How the model stands in for the source:

- `desktops != null` is the field `started`.
- Exceptions the handlers do not catch (`KeyNotFoundException`, and a
  `NullReferenceException` while stopped) are out-parameters `thrown` or
  `faulted`. The state changed before the exception stays changed.
- Time is an integer number of milliseconds since `DateTime.MinValue`, so the
  "nothing pending" sentinel is `MinValue == 0`.
- The focus handed out by `CurrentChanged` is its out-parameter `focus`.

## Model

| member | source | states |
|---|---|---|
| GridNavigation.DesktopCount | VirtualDesktopGridSwitcher/VirtualDesktopGridManager.cs:119-123 | no contract; properties in `NavigationStaysInGrid`, `Bindings` and `ReconcileDesktops` |
| GridNavigation.ColumnOf | VirtualDesktopGridSwitcher/VirtualDesktopGridManager.cs:524-526 | no contract; properties in `ColumnAndRowInRange`, `PositionInGrid`, `CellIndex`, `ColumnBefore` and `ColumnAfter` |
| GridNavigation.RowOf | VirtualDesktopGridSwitcher/VirtualDesktopGridManager.cs:528-530 | no contract; properties in `ColumnAndRowInRange`, `PositionInGrid`, `CellIndex`, `RowBefore` and `RowAfter` |
| GridNavigation.Left | VirtualDesktopGridSwitcher/VirtualDesktopGridManager.cs:396-408 | no contract; properties in `LeftMoves`, `LeftLands` and the grid-wide lemmas below |
| GridNavigation.Right | VirtualDesktopGridSwitcher/VirtualDesktopGridManager.cs:410-422 | no contract; properties in `RightMoves`, `RightLands` and the grid-wide lemmas below |
| GridNavigation.Up | VirtualDesktopGridSwitcher/VirtualDesktopGridManager.cs:424-436 | no contract; properties in `UpMoves`, `UpLands` and the grid-wide lemmas below |
| GridNavigation.Down | VirtualDesktopGridSwitcher/VirtualDesktopGridManager.cs:438-450 | no contract; properties in `DownMoves`, `DownLands` and the grid-wide lemmas below |
| GridNavigation.ColumnAndRowInRange | VirtualDesktopGridSwitcher/VirtualDesktopGridManager.cs:524-530 | for Columns, Rows >= 1 and index >= -Columns, with truncating `/` and `%`, the column lies in [0, Columns) and the row in [0, Rows) |
| GridNavigation.PositionInGrid | VirtualDesktopGridSwitcher/VirtualDesktopGridManager.cs:524-530 | on a grid index, the column and row are the Euclidean remainder and quotient by Columns, and index == row * Columns + column |
| GridNavigation.CellIndex | VirtualDesktopGridSwitcher/VirtualDesktopGridManager.cs:524-530 | every (row, column) cell is the grid index row * Columns + column, and ColumnOf/RowOf give that cell back |
| GridNavigation.PositionDeterminesIndex | VirtualDesktopGridSwitcher/VirtualDesktopGridManager.cs:524-530 | two grid indexes with the same row and column are equal |
| GridNavigation.ColumnBefore | VirtualDesktopGridSwitcher/VirtualDesktopGridManager.cs:524-526 | ColumnOf(Current - 1) is the previous column, or Columns - 1 in the first column |
| GridNavigation.ColumnAfter | VirtualDesktopGridSwitcher/VirtualDesktopGridManager.cs:524-526 | ColumnOf(Current + 1) is the next column, or 0 in the last column |
| GridNavigation.RowBefore | VirtualDesktopGridSwitcher/VirtualDesktopGridManager.cs:528-530 | RowOf(Current - Columns) is the previous row; in the first row, because `/` truncates, it is Rows - 1 for desktop 0 and row 0 for the others, never a smaller row |
| GridNavigation.RowAfter | VirtualDesktopGridSwitcher/VirtualDesktopGridManager.cs:528-530 | RowOf(Current + Columns) is the next row, or 0 from the last row |
| GridNavigation.LeftMoves | VirtualDesktopGridSwitcher/VirtualDesktopGridManager.cs:396-408 | Left is Current - 1 away from the first column; in the first column it is the row's last cell with wrap-around and Current without |
| GridNavigation.RightMoves | VirtualDesktopGridSwitcher/VirtualDesktopGridManager.cs:410-422 | Right is Current + 1 away from the last column; in the last column it is the row's first cell with wrap-around and Current without |
| GridNavigation.UpMoves | VirtualDesktopGridSwitcher/VirtualDesktopGridManager.cs:424-436 | Up is Current - Columns away from the first row; in the first row it is the same column of the last row with wrap-around and Current without |
| GridNavigation.DownMoves | VirtualDesktopGridSwitcher/VirtualDesktopGridManager.cs:438-450 | Down is Current + Columns away from the last row; in the last row it is the same column of row 0 with wrap-around and Current without |
| GridNavigation.LeftLands | VirtualDesktopGridSwitcher/VirtualDesktopGridManager.cs:396-408 | Left is a grid index in the same row, in the previous column (wrapping or stopping at the edge) |
| GridNavigation.RightLands | VirtualDesktopGridSwitcher/VirtualDesktopGridManager.cs:410-422 | Right is a grid index in the same row, in the next column (wrapping or stopping at the edge) |
| GridNavigation.UpLands | VirtualDesktopGridSwitcher/VirtualDesktopGridManager.cs:424-436 | Up is a grid index in the same column, in the previous row (wrapping or stopping at the edge) |
| GridNavigation.DownLands | VirtualDesktopGridSwitcher/VirtualDesktopGridManager.cs:438-450 | Down is a grid index in the same column, in the next row (wrapping or stopping at the edge) |
| GridNavigation.NavigationStaysInGrid | VirtualDesktopGridSwitcher/VirtualDesktopGridManager.cs:396-450 | from any desktop of the grid, all four arrows give an index in [0, Rows*Columns) |
| GridNavigation.ArrowsKeepTheirLine | VirtualDesktopGridSwitcher/VirtualDesktopGridManager.cs:396-450 | Left and Right never change the row; Up and Down never change the column |
| GridNavigation.EdgesStopWithoutWrap | VirtualDesktopGridSwitcher/VirtualDesktopGridManager.cs:396-450 | without wrap-around each arrow returns Current exactly at its edge of the grid |
| GridNavigation.WrapArrowsAreInverse | VirtualDesktopGridSwitcher/VirtualDesktopGridManager.cs:396-450 | with wrap-around Right undoes Left, Left undoes Right, Down undoes Up and Up undoes Down |
| GridNavigation.ThreeByThreeLeft | VirtualDesktopGridSwitcher/VirtualDesktopGridManager.cs:396-408 | 3x3 without wrap-around: Left of 0 is 0 |
| GridNavigation.ThreeByThreeUp | VirtualDesktopGridSwitcher/VirtualDesktopGridManager.cs:424-436 | 3x3 without wrap-around: Up of 0 is 0 |
| GridNavigation.ThreeByThreeRight | VirtualDesktopGridSwitcher/VirtualDesktopGridManager.cs:410-422 | 3x3 without wrap-around: Right of 0 is 1 |
| GridNavigation.ThreeByThreeDown | VirtualDesktopGridSwitcher/VirtualDesktopGridManager.cs:438-450 | 3x3 without wrap-around: Down of 0 is 3 |
| GridNavigation.ThreeByThreeWrapLeft | VirtualDesktopGridSwitcher/VirtualDesktopGridManager.cs:396-408 | 3x3 with wrap-around: Left of 0 is 2 |
| GridNavigation.ThreeByThreeWrapUp | VirtualDesktopGridSwitcher/VirtualDesktopGridManager.cs:424-436 | 3x3 with wrap-around: Up of 0 is 6 |
| HotKeys.NumPadIndex | VirtualDesktopGridSwitcher/VirtualDesktopGridManager.cs:555 | no contract; properties in `NumPadKeyLands`, `NumPadIsBijective` and `NumPadCorners` |
| HotKeys.KeyLimit | VirtualDesktopGridSwitcher/VirtualDesktopGridManager.cs:548 | no contract; properties in `Bindings`, `NumPadKeysInLargeGrid` and `NumPadOnSmallGridLeavesTheGrid` |
| HotKeys.NumPadKeyLands | VirtualDesktopGridSwitcher/VirtualDesktopGridManager.cs:551-556 | for keypad keys 1..9 the truncating formula equals the Euclidean one, lands in 0..8, and `KeyForDesktop` gives the key back |
| HotKeys.NumPadIsBijective | VirtualDesktopGridSwitcher/VirtualDesktopGridManager.cs:551-556 | keypad keys 1..9 map onto desktops 0..8 one-to-one, with `KeyForDesktop` as the inverse |
| HotKeys.NumPadCorners | VirtualDesktopGridSwitcher/VirtualDesktopGridManager.cs:555 | keypad 7 maps to 0, 9 to 2, 1 to 6 and 3 to 8 |
| HotKeys.Bindings | VirtualDesktopGridSwitcher/VirtualDesktopGridManager.cs:548-564 | a key is bound exactly when it lies in 1 .. min(DesktopCount, 9 or 12); no key is bound twice; every binding has the configured key kind and targets the desktop of its key (n - 1, or the keypad layout) |
| HotKeys.PlainKeysInGrid | VirtualDesktopGridSwitcher/VirtualDesktopGridManager.cs:548-564 | digit and function keys bind key n to desktop n - 1, always a desktop of the grid |
| HotKeys.NumPadKeysInLargeGrid | VirtualDesktopGridSwitcher/VirtualDesktopGridManager.cs:548-564 | with nine or more desktops, the nine keypad keys are bound, each to a desktop of the grid |
| HotKeys.NumPadOnSmallGridLeavesTheGrid | VirtualDesktopGridSwitcher/VirtualDesktopGridManager.cs:548-556 | on a 2x2 grid the loop as written binds NumPad1 to desktop 6, which is outside the grid |
| HotKeys.KeepInGrid | VirtualDesktopGridSwitcher/VirtualDesktopGridManager.cs:551-564 | keeps exactly the bindings whose desktop is on the grid |
| HotKeys.KeepInGridFilters | VirtualDesktopGridSwitcher/VirtualDesktopGridManager.cs:551-564 | the kept bindings appear in their original order, each in-grid binding as often as in the input, and no off-grid binding at all |
| HotKeys.GridBindings | VirtualDesktopGridSwitcher/VirtualDesktopGridManager.cs:548-556 | no contract; properties in `GridBindingsInGrid` |
| HotKeys.GridBindingsInGrid | VirtualDesktopGridSwitcher/VirtualDesktopGridManager.cs:548-564 | the corrected bindings all target desktops of the grid; a keypad key is bound iff its desktop exists; with nine or more desktops they equal the loop's bindings |
| HotKeys.AllInGridKept | VirtualDesktopGridSwitcher/VirtualDesktopGridManager.cs:551-564 | when every binding is on the grid, none is dropped |
| Windows.IsWindowDefaultBrowser | VirtualDesktopGridSwitcher/VirtualDesktopGridManager.cs:348-351 | no contract; properties in `SameNameIgnoresCase`, and `TopBrowser` and the browser search lemmas below |
| Windows.IsMoveOnNewWindowType | VirtualDesktopGridSwitcher/VirtualDesktopGridManager.cs:353-358 | no contract; properties in `SameNameIgnoresCase` and the `Relocation` lemmas |
| Windows.Upper | VirtualDesktopGridSwitcher/VirtualDesktopGridManager.cs:348-358 | upper-casing keeps the length, turns each lower-case ASCII letter into its upper-case partner (32 code points lower) and keeps every other character |
| Windows.SameNameIgnoresCase | VirtualDesktopGridSwitcher/VirtualDesktopGridManager.cs:348-358 | two executable names match exactly when they have the same length and agree character by character up to ASCII case |
| Windows.Without | VirtualDesktopGridSwitcher/VirtualDesktopGridManager.cs:494-498 | no contract; properties in `ForgetThenRecord`, `WithoutNoWindow`, `WithoutIdempotent` and `Manager.Forget` |
| Windows.ForgetThenRecord | VirtualDesktopGridSwitcher/VirtualDesktopGridManager.cs:492-510 | after clearing a real window's slots and recording it at t, it is in slot t and no other, and the slots of other windows are unchanged |
| Windows.WithoutNoWindow | VirtualDesktopGridSwitcher/VirtualDesktopGridManager.cs:493-498 | clearing the slots of `IntPtr.Zero` changes nothing |
| Windows.WithoutIdempotent | VirtualDesktopGridSwitcher/VirtualDesktopGridManager.cs:494-498 | clearing a window's slots twice is clearing them once, so repeated move attempts agree with one |
| Windows.BrowserSearchAnswerUnique | VirtualDesktopGridSwitcher/VirtualDesktopGridManager.cs:165-187 | the browser search has exactly one possible answer |
| Windows.TopBrowserOnIsUnique | VirtualDesktopGridSwitcher/VirtualDesktopGridManager.cs:181-184 | there is one topmost browser window on a desktop |
| Windows.TopBrowserOnAfterTopBrowser | VirtualDesktopGridSwitcher/VirtualDesktopGridManager.cs:172-184 | if the topmost browser window on the desktop is not the topmost browser window, the topmost one is above it and on another desktop |
| Windows.FirstBrowserBelow | VirtualDesktopGridSwitcher/VirtualDesktopGridManager.cs:172-173 | a browser window that is not the topmost has the topmost one above it |
| Windows.FindTopBrowserOnDesktop | VirtualDesktopGridSwitcher/VirtualDesktopGridManager.cs:200-206 | the do/while over the browser windows answers the topmost browser window on the desktop when the topmost browser window is elsewhere, and no window when none is on the desktop or the topmost already is |
| Windows.IsOpeningPlaceholderOf | VirtualDesktopGridSwitcher/VirtualDesktopGridManager.cs:278 | no contract; used by `Relocation.Step`, its `ReactionsWithinTimeout`, `NewWindowSentBack` and `PlaceholderRefreshes` lemmas, and `GridManager.ConsultRecord` |
| Relocation.Step | VirtualDesktopGridSwitcher/VirtualDesktopGridManager.cs:267-302 | no contract; properties in the `Relocation` lemmas below and `GridManager.ConsultRecord` |
| Relocation.OtherProgramsIgnored | VirtualDesktopGridSwitcher/VirtualDesktopGridManager.cs:267 | windows of programs not listed leave the record alone and the handler goes on |
| Relocation.OpenedElsewhereRecords | VirtualDesktopGridSwitcher/VirtualDesktopGridManager.cs:267-273 | a listed program's window on another desktop records (hwnd, Current, now) and falls through to activity recording |
| Relocation.ActsOnlyWithinTimeout | VirtualDesktopGridSwitcher/VirtualDesktopGridManager.cs:267-277 | the record refreshes or moves exactly when a listed window is on the current desktop, within the timeout, and the record came from another desktop |
| Relocation.ReactionsWithinTimeout | VirtualDesktopGridSwitcher/VirtualDesktopGridManager.cs:278-297 | the same window or its "Opening - " placeholder refreshes only the time; any other window clears the record (hwnd 0, MinValue) and is moved to the recorded desktop |
| Relocation.ExpiredRecordCleared | VirtualDesktopGridSwitcher/VirtualDesktopGridManager.cs:298-301 | otherwise, on the current desktop, the time is reset to MinValue and the window and origin are kept |
| Relocation.ExpiredRecordInert | VirtualDesktopGridSwitcher/VirtualDesktopGridManager.cs:274-301 | for windows on the current desktop, a record whose time is MinValue never acts and never changes once the clock is a timeout past MinValue (a listed window on another desktop still overwrites it, as `OpenedElsewhereRecords` states) |
| Relocation.RetryLimit | VirtualDesktopGridSwitcher/VirtualDesktopGridManager.cs:288-294 | the number of 100 ms waits is the least n with 100 n reaching the timeout plus 300 |
| Relocation.NewWindowSentBack | VirtualDesktopGridSwitcher/VirtualDesktopGridManager.cs:267-297 | a window opened elsewhere from desktop 0, followed within the timeout by another new window on that desktop, sends the latter back to 0 and clears the record |
| Relocation.PlaceholderRefreshes | VirtualDesktopGridSwitcher/VirtualDesktopGridManager.cs:278-281 | the placeholder and then the recorded window itself each restart the timeout |
| Desktops.Erase | VirtualDesktopGridSwitcher/VirtualDesktopGridManager.cs:65 | `List.Remove` shortens the list by one when the desktop is present, leaves the list alone otherwise, and adds nothing |
| Desktops.FirstIndex | VirtualDesktopGridSwitcher/VirtualDesktopGridManager.cs:65 | the position found holds the desktop, and no earlier position does |
| Desktops.EraseFirstOccurrence | VirtualDesktopGridSwitcher/VirtualDesktopGridManager.cs:65 | `List.Remove` removes the first occurrence of the desktop and keeps the desktops before and after it in their order |
| Desktops.EraseRemovesOne | VirtualDesktopGridSwitcher/VirtualDesktopGridManager.cs:65 | `List.Remove` takes exactly one copy of the desktop out of the multiset of desktops, and nothing else |
| Desktops.EraseDistinct | VirtualDesktopGridSwitcher/VirtualDesktopGridManager.cs:63-65 | removing from a list without repetitions keeps it without repetitions and removes exactly that desktop |
| Desktops.EraseLast | VirtualDesktopGridSwitcher/VirtualDesktopGridManager.cs:63-65 | removing the last desktop of a list without repetitions leaves its prefix |
| Desktops.LookupIsBijection | VirtualDesktopGridSwitcher/VirtualDesktopGridManager.cs:73-79 | the lookup maps the desktops one-to-one onto 0 .. count - 1, and desktop i back from index i |
| Desktops.BuildLookup | VirtualDesktopGridSwitcher/VirtualDesktopGridManager.cs:73-75 | the loop maps the i-th desktop to i, and nothing else |
| Desktops.DesktopProvider.Create | VirtualDesktop-master/source/VirtualDesktop/VirtualDesktop.static.cs:99-107 | a new desktop, different from all others, is added at the end |
| Desktops.DesktopProvider.Remove | VirtualDesktop-master/source/VirtualDesktop/VirtualDesktop.cs:43-56 | the desktop is removed; the fallback is the first other desktop (or a new one) and is shown if the removed one was |
| Manager.ActivateWindow | VirtualDesktopGridSwitcher/VirtualDesktopGridManager.cs:242-254 | no contract; properties in `GridManager.CurrentChanged`, whose `focus` result it decides |
| Manager.Forget | VirtualDesktopGridSwitcher/VirtualDesktopGridManager.cs:494-498 | the loop clears exactly the slots holding the window |
| Manager.ReconcileDesktops | VirtualDesktopGridSwitcher/VirtualDesktopGridManager.cs:62-70 | after the two loops there are exactly Rows*Columns desktops: the first ones kept, or all kept and new ones added at the end; the shown desktop stays shown if it was kept, otherwise the provider shows the first desktop |
| Manager.GridManager.constructor | VirtualDesktopGridSwitcher/VirtualDesktopGridManager.cs:38-49 | a new manager has no pending record, no moving or activating window, and is started exactly when the provider is supported; when started, the provider's desktops are trimmed or extended as by `Start`, the shown desktop is the old one if kept and otherwise the first, Current is its index, and both tables are new, empty arrays; if it is not started, Current is 0 and the provider is untouched |
| Manager.GridManager.Start | VirtualDesktopGridSwitcher/VirtualDesktopGridManager.cs:58-98 | when supported: the desktop list has Rows*Columns entries, the lookup numbers them in order, Current is the index of the provider's shown desktop (the old one if kept, otherwise the first), and both tables are fresh and empty; otherwise nothing changes |
| Manager.GridManager.Stop | VirtualDesktopGridSwitcher/VirtualDesktopGridManager.cs:100-111 | the manager is no longer started |
| Manager.GridManager.Restart | VirtualDesktopGridSwitcher/VirtualDesktopGridManager.cs:113-117 | Stop then Start: started exactly when supported; when started, the desktop list is the provider's old list trimmed or extended as by `Start`, the shown desktop is the old one if kept and otherwise the first, Current is its index, and both tables are new, empty arrays; when unsupported, Current, the desktop list and the provider are as before |
| Manager.GridManager.SetCurrent | VirtualDesktopGridSwitcher/VirtualDesktopGridManager.cs:383-394 | `_current` changes only when `desktops != null` |
| Manager.GridManager.Switch | VirtualDesktopGridSwitcher/VirtualDesktopGridManager.cs:452-460 | the foreground window is written to activeWindows[old Current] unless it is the activating browser window, then Current becomes the index; while stopped that write faults |
| Manager.GridManager.MoveWindow | VirtualDesktopGridSwitcher/VirtualDesktopGridManager.cs:492-522 | with h = 0 nothing changes and the result is false; otherwise h's slots are cleared and movingWindow = h even on failure; on success activeWindows[t] = h and Current = t |
| Manager.GridManager.Move | VirtualDesktopGridSwitcher/VirtualDesktopGridManager.cs:462-522 | with no foreground window nothing changes; for the browser, exactly its lastActiveBrowserWindows slots are cleared; then MoveWindow clears the window's activeWindows slots and marks it as moving; it reaches the target (which becomes Current) only when the provider succeeds and the index is on the grid; any other index fails the move and leaves Current alone, as MoveWindow's `catch` does |
| Manager.GridManager.MoveNewWindow | VirtualDesktopGridSwitcher/VirtualDesktopGridManager.cs:288-294 | the retry loop stops at the first successful attempt or after RetryLimit waits; the move succeeds iff some attempt up to that bound does |
| Manager.GridManager.ConsultRecord | VirtualDesktopGridSwitcher/VirtualDesktopGridManager.cs:267-302 | the three record fields become `Step`'s next record, and the handler goes on as `Step` says |
| Manager.GridManager.WindowDesktopIndex | VirtualDesktopGridSwitcher/VirtualDesktopGridManager.cs:260-266 | no contract; properties in `GridManager.RecordForeground` and `GridManager.ForegroundWindowChanged` |
| Manager.GridManager.RecordForeground | VirtualDesktopGridSwitcher/VirtualDesktopGridManager.cs:305-318 | activeWindows[d] is written only for a resolved desktop, with no move under way and not the activating window; lastActiveBrowserWindows[d] only for the browser or the activating window; activatingBrowserWindow is cleared exactly when it is the window |
| Manager.GridManager.ForegroundWindowChanged | VirtualDesktopGridSwitcher/VirtualDesktopGridManager.cs:256-322 | nothing changes while stopped or for an unknown desktop (which throws); otherwise the record steps as `Step` says and the window is recorded, the record is refreshed, or the window is moved |
| Manager.GridManager.FindActivateBrowserWindow | VirtualDesktopGridSwitcher/VirtualDesktopGridManager.cs:189-214 | the recorded browser window is activated if it is on the current desktop; otherwise the search's answer is activated, if any; a window on an unknown desktop throws |
| Manager.GridManager.CurrentChanged | VirtualDesktopGridSwitcher/VirtualDesktopGridManager.cs:125-157 | Current becomes the index of the shown desktop; unless the browser is being moved, its browser window is brought forward and the focus goes to its last active window or back; the activating browser window changes only through a search that does not throw; movingWindow is 0 afterwards |

## Left out

- The `callbackMutex` lock: each handler is one atomic method call.
- `Thread.Sleep`: the retry loop keeps only its `retryTime` counter.
- `DateTime.Now`: the source reads the clock at most twice per callback: not at
  all for windows of unlisted programs, once when the window opened elsewhere
  (line 272), and otherwise once for the timeout test (line 274) and once more
  when the record is refreshed (line 280). The model reads it once (`now`, whole milliseconds instead of `TotalMilliseconds`).
- `MessageBox`, `Debug.WriteLine` and `Console` output. This includes the lookup of
  the provider's current desktop inside the debug message of the browser branch,
  which only debug builds evaluate.
- `PostMessage(WM_KILLFOCUS)` in `Switch`.
- The provider's `Switch` call in the `Current` setter. The provider's
  desktop-changed notification that follows is a separate `CurrentChanged` call.
- The tray icon (`ShowIconForDesktop`) and the lookup handed to the tray process.
- Hotkey registration plumbing: `Hotkey.Register`, its failure messages, the key
  names built with `Enum.Parse`, `UnregisterHotKeys`, and the Boolean that
  `Start`/`Restart` return from it. Only the key-to-desktop map is modelled.
- The `settings.Apply` subscription: the settings are constant.
- `ToggleWindowSticky`, `ToggleWindowAlwaysOnTop`, `IsWindowTopMost` and
  `ReleaseModifierKeys`, which are window-style bit operations or dead code.
- `ActivateBrowserWindow`'s window placement and restore calls. The model
  assumes `SetForegroundWindow` always succeeds.
- `GetWindowExeName`, `GetWindowTitle`, `IsWindow`, `FindWindowEx` and the
  provider's window-to-desktop query are `Host` oracles. `FindWindowEx` is the
  finite sequence `browserZOrder`.
- `Dispose` and the WinEvent hook.
- C# `int` is 32 bits wide; the model uses unbounded integers. The sums and
  products it computes (`Rows * Columns`, `MoveOnNewWindowDetectTimeoutMs + 300`
  at line 289, the retry counter) overflow only for settings far beyond any
  real grid or timeout, and that wrap-around is not modelled.
- `Windows.Upper`: `ToUpper` is modelled on the ASCII letters only, not with the
  culture's case mapping.
- `Manager.GridManager.Switch`: requires an index on the grid. The arrow keys
  (`NavigationStaysInGrid`) and the corrected number keys (`GridBindingsInGrid`)
  only pass such indexes. The as-written keypad bindings can pass one outside the
  grid, where the C# setter stores it in `_current` and then throws from
  `desktops[index]` (see Findings).
- `Manager.GridManager.SetCurrent`: requires an index on the grid, for the same
  reason as `Switch`.
- `Manager.GridManager.MoveWindow`: only a failing `MoveToDesktop` (`ok` false) or
  an index outside the desktops fails the move. Exceptions from
  `SetForegroundWindow` or the provider's `Switch` after a successful move are
  not modelled.
- `Manager.GridManager.Start`: of the exceptions its `try` swallows, only the
  "virtual desktops not supported" one is modelled. The provider's behaviour
  (desktops appended at the end, `Remove` showing the first other desktop) is a
  small list model, not the operating system's.
- `Manager.GridManager.Stop`: the arrays and the lookup are not set to `null`;
  `started` being false stands for that.
- `Manager.GridManager.CurrentChanged`: requires `started`, because the handler
  is only subscribed between `Start` and `Stop`.
- `Guid` desktop identities are natural numbers, and `IntPtr` handles are integers.

## Findings

| source | as written | input that shows it | evidently intended | confidence | as-written member | corrected member |
|---|---|---|---|---|---|---|
| VirtualDesktopGridSwitcher/VirtualDesktopGridManager.cs:548-556 | with keypad keys, keys 1 to min(DesktopCount, 9) are bound to `(2 - (k-1)/3)*3 + (k-1)%3` | a 2x2 grid: NumPad1 is bound to desktop 6 (NumPad2 to 7, NumPad3 to 8); pressing it stores `_current = 6` and then fails on `desktops[6]` | only keypad keys whose desktop exists are bound, so every key targets a desktop of the grid | high; not executed | HotKeys.NumPadOnSmallGridLeavesTheGrid | HotKeys.GridBindingsInGrid |
