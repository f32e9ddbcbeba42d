# Window manager of a browser-hosted simulated desktop

This project models the window system of `js/simple.js` in Dafny and proves properties of it. That file is the script behind a portfolio page made to look like a small operating system. Enter on the boot screen starts the desktop. Windows can be opened, closed, minimized, maximized and restored, raised by focus, and dragged by their title bar inside the viewport. A taskbar holds one button per open window, and the active window's button is highlighted. One window is a terminal with a toy command interpreter.

## Layout

- `wrappers.dfy` (`Wrappers`): the `Option` type.
- `geometry.dfy` (`Geometry`): inline CSS lengths (`Css`: empty, `<n>px`, `100vw`, `calc(100vh - 36px)`), the stylesheet geometry of a window (`Box`), the rendered length of a value (`Measure`), the 36 px taskbar height, and the one-axis clamp of `keepInBounds` (`ClampAxis`).
- `windows.dfy` (`Windows`): a window element, with its inline display, left, top, width, height and z-index. Also the `windowState` record (`Saved`), the clamp of a window (`KeptInBounds`), one drag step (`MoveTo`) and the geometry half of `maximize` (`ToggleMaximize`).
- `taskbar.dfy` (`Taskbar`): the taskbar as an ordered sequence of buttons (`Entry(id, active)`), looked up the way `querySelector` does it (first match). It has the taskbar halves of `focusWindow`, `minimize`, `addToTaskbar` and `removeFromTaskbar`, and their lemmas.
- `terminal.dfy` (`Terminal`): `String.prototype.trim` over the ECMAScript white-space and line-terminator characters, and the command switch as abstract output lines.
- `window_manager.dfy` (`WindowManager`): the whole state of the script as one value `Desk`. It holds the windows, `windowState`, `zIndexCounter`, the taskbar, the drag offsets, the registered drag listeners, the boot flags, and the terminal's output and input. There is one function per operation, the invariant `WellFormed`, and the lemmas about the operations.
- `simple.dfy` (`Simple`): class `Desktop`, with the same state in fields and one method per function of the script. The methods run the steps of the source in order: the `querySelector` lookup and the `forEach` clearing are loops, and a mousemove runs every registered listener in turn. The event handlers and the functions the page's markup calls (`KeyDown`, `AboutTimer`, `OpenWindow`, `CloseWindow`, `Minimize`, `Maximize`, `ToggleWindow`, `Drag`, `Move`, `Stop`, `SetInput`, `TerminalCommand`) require and keep `Valid()`, that is, `WellFormed(Model())`, and ensure `Model() == WindowManager.<Op>(old(Model()), ...)`. So does `Dispatch`, the switch, which is reached only through `TerminalCommand` and `RunCommand`. `RunCommand` (echo, switch, clearing the input) requires `Valid()` and ensures that its new state is the pure `Dispatch` on the echoed state with the input emptied. The other helpers do not require `Valid()`. Each is proved against its own function: `FocusWindow`, `AddToTaskbar` and `RemoveFromTaskbar` against `WindowManager.Focus`, `AddToTaskbar` and `RemoveFromTaskbar`; `SaveOrRestore` and `KeepInBounds` against `Windows.ToggleMaximize` and `Windows.KeptInBounds`; `RunMoveListeners` against `WindowManager.Moved`; `FindButton` and `ClearActive` against `Taskbar.FirstIndex` and `Taskbar.Cleared`. `StartDesktop` is stated by the four flags it sets, and its `modifies` clause names only those fields. `AddToTaskbar` on an id with no window would break `WellFormed`; it is called only from `OpenWindow`.

The viewport size (`window.innerWidth`, `window.innerHeight`) and the pointer position are parameters. An element looked up by `getElementById` is never checked for null in the source, so "the window exists" (`id in windows`) is a precondition wherever the source does such a lookup.

## Model

| member | source | states |
|---|---|---|
| Geometry.ClampAxis | js/simple.js:135-143 | the lower bound is applied first and the upper bound then overrides it: the result lies in [0, max] when max >= 0, equals the position when that is already in range, and equals max (negative) when the window does not fit |
| Geometry.ClampIdempotent | js/simple.js:139-142 | clamping an already clamped position changes nothing |
| Windows.KeptInBounds | js/simple.js:135-143 | keepInBounds changes only left and top; the rendered position becomes the clamped one; a coordinate already in range keeps its inline value, and one out of range is written as the clamped `<n>px` value; a window that fits ends inside the viewport above the taskbar |
| Windows.KeptInBoundsIdempotent | js/simple.js:135-143 | clamping a window that keepInBounds already clamped changes nothing |
| Windows.MoveToLands | js/simple.js:120-124 | one drag step puts the window exactly at the clamped target, written as px values, and changes nothing else |
| Windows.MoveToForgetsPosition | js/simple.js:121-123 | where a drag step puts a window does not depend on where it was |
| Windows.ToggleMaximize | js/simple.js:64-88 | from a non-maximized state, saves the four current inline lengths and writes 0px, 0px, 100vw, calc(100vh - 36px); from a maximized state, writes the saved lengths back, keeps them in the record and clears the flag |
| Windows.ToggleMaximizeTwice | js/simple.js:61-91 | two toggles from a normal window give back exactly that window with the flag cleared; from a maximized window they leave it maximized with the same record |
| Taskbar.FirstIndex | js/simple.js:99 | the lookup by data-window finds a button exactly when one exists, and it finds the first one |
| Taskbar.Cleared | js/simple.js:101 | the forEach keeps every button in place and leaves none active |
| Taskbar.HighlightMarksOnly | js/simple.js:97-103 | when the window has a button, that button ends as the only active one; when it has none, every flag is unchanged; buttons and their order are kept |
| Taskbar.AddProperties | js/simple.js:149-162 | adding never creates a duplicate and is idempotent; an id that already has a button changes nothing; a new id gets one inactive button at the end |
| Taskbar.RemoveProperties | js/simple.js:164-167 | removing takes away exactly that id's button and keeps every other button in its order: the result is the taskbar with one position k (the button of the id) spliced out, and equals the reference filter `Without`; it does nothing when the id has no button; a second removal is a no-op |
| Taskbar.RemoveKeepsOrder | js/simple.js:164-167 | removal splices out one position, so the remaining buttons keep their order, and it equals filtering out every button of the id |
| Taskbar.Without | js/simple.js:164-167 | the reference for removal: the buttons of other windows, in order; the result has no button for the id |
| Taskbar.Highlight | js/simple.js:97-103 | the taskbar half of focusWindow keeps the ids in order; with no button for the id every flag is unchanged; otherwise the first button of the id becomes active |
| Taskbar.Deactivate | js/simple.js:57-58 | the taskbar half of minimize keeps the ids in order and never activates a button |
| Taskbar.Add | js/simple.js:149-162 | addToTaskbar leaves a button for the id, keeps the old buttons as a prefix, and adds at most one |
| Taskbar.Remove | js/simple.js:164-167 | removeFromTaskbar removes exactly one button when the id has one and none otherwise, and never creates a button |
| Taskbar.DeactivateProperties | js/simple.js:57-58 | minimize's lookup clears only that window's active flag and keeps every button |
| Terminal.Trim | js/simple.js:189 | the input is a white-space prefix, then the result, then a white-space suffix, and neither end of the result is white space |
| Terminal.TrimPadded | js/simple.js:189 | trimming an unpadded command with white space around it gives back exactly the command |
| Terminal.TrimIdempotent | js/simple.js:189 | trimming twice is the same as trimming once |
| Terminal.Answer | js/simple.js:193-224 | the switch: "clear" empties the output; "exit" adds nothing; "help", "neofetch" and "about --secret" append exactly their own answer line; an unknown command appends "Command not found" with the command |
| Terminal.Respond | js/simple.js:191-224 | the echo line of the command comes first, then the answer: exactly the echo and the answer line for "help", "neofetch", "about --secret" and unknown commands, only the echo for "exit"; "clear" removes the echo too |
| WindowManager.Initial | js/simple.js:37-38 | the page starts well formed, with the counter at 50 and an empty windowState (lines 37-38), drag offsets at 0 (lines 110-111) and no listener, `desktopStarted` false (line 6), an empty taskbar, an empty terminal output and input, and the boot screen shown and the desktop hidden, as the page's markup has them |
| WindowManager.FocusProperties | js/simple.js:93-104 | focus increments the counter by exactly one and gives it to the window, which is then strictly above every other window; no other window changes; the window's button, if any, becomes the only active one, and with no button every flag is unchanged; only the counter, the windows and the taskbar change |
| WindowManager.FocusThenFocus | js/simple.js:93-95 | focusing a and then b puts b above a and leaves b's button (if any) as the only active one |
| WindowManager.OpenProperties | js/simple.js:40-45 | open changes only the window's display (to block) and z-index (to the incremented counter); no other window and no other field changes; it ensures exactly one button for the window; focus runs before the button is added, so a first open appends an inactive button at the end and leaves every other flag as it was, while an existing button becomes the only active one |
| WindowManager.OpenButtons | js/simple.js:40-45 | after open, the windows with a button are those that had one, plus the opened window |
| WindowManager.CloseProperties | js/simple.js:47-51 | close hides the window and removes exactly its button; the other buttons stay in their order (the taskbar becomes `Without(taskbar, id)`); no other field changes; closing twice is the same as closing once |
| WindowManager.MinimizeProperties | js/simple.js:53-59 | minimize hides the window, keeps every button and clears only its own active flag; only the windows and the taskbar change, so z-indices, windowState and every other field are untouched |
| WindowManager.ToggleShows | js/simple.js:169-174 | a window whose display is "none" is shown and raised; no other window changes; the buttons and their order are kept, and the window's button (if any) becomes the only active one; windowState and every other field stay as they were |
| WindowManager.ToggleHides | js/simple.js:175-177 | any other window is only hidden: no button, flag or z-index changes |
| WindowManager.MaximizeProperties | js/simple.js:61-91 | maximize changes only the window's four lengths and z-index: it either saves the current lengths and writes the maximized ones, or writes the saved lengths back and keeps them in the record with the flag cleared; only the window's own windowState entry changes; focus then gives it the next z-index and highlights its button (if any) as the only active one |
| WindowManager.MaximizeTwiceRestores | js/simple.js:61-91 | maximize twice on a window that is not maximized restores exactly its top, left, width and height, leaves it not maximized, and advances the counter by two |
| WindowManager.DragStartProperties | js/simple.js:113-118 | a press focuses the window (next z-index, its button the only active one, buttons and order kept), sets offset = pointer - position, and registers one more listener pair; windowState and every other field stay as they were |
| WindowManager.DragMoveProperties | js/simple.js:120-124 | a mousemove moves exactly the dragged windows, each to the clamped value of pointer - offset: inside the range when it fits, at the upper bound when it is wider than the viewport; only the windows change, so windowState, the offsets and the listeners stay |
| WindowManager.DragBackToStart | js/simple.js:113-124 | pressing on a window that lies in bounds and moving back to the press point puts it exactly where it was |
| WindowManager.DragEndProperties | js/simple.js:126-129 | mouseup removes every listener, so later moves change nothing |
| WindowManager.KeyDownStartsOnce | js/simple.js:8-21 | the first Enter starts the desktop (boot screen hidden, desktop shown, "about" timer set) and changes nothing else; after that no key press changes anything |
| WindowManager.AboutTimerProperties | js/simple.js:28-30 | the start-up timer opens "about" exactly as `OpenPost` describes an open: it shows the window and gives it the next z-index; an existing button for "about" becomes the only active one with every button kept, otherwise one inactive button is appended; it clears the pending flag; nothing else changes |
| WindowManager.TerminalCommandProperties | js/simple.js:184-227 | a key other than Enter does nothing; Enter empties the input and appends echo then answer; "clear" empties the output; "exit" hides the terminal window and removes only its button, every other window and button staying as it was; other commands leave windows and taskbar unchanged; no other field changes |
| WindowManager.ExitWithSpaces | js/simple.js:189-205 | "  exit " closes the terminal and leaves its echo as the last output line |
| WindowManager.OpenOpenFocus | js/simple.js:40-45 | open a, open b, then focus a: a is above b, both have buttons, and a's is the only active one |
| WindowManager.ClampExample | js/simple.js:135-143 | a 300 x 200 window at (-50, 10) in a 1024 x 768 viewport is clamped to (0, 10) |
| WindowManager.MovedStep | js/simple.js:120-124 | running one more move listener moves its window from wherever the earlier listeners left it |
| WindowManager.Focus | js/simple.js:93-104 | focusWindow advances the counter by one and gives it to the window; it keeps the set of windows and the ids of the buttons in order |
| WindowManager.Open | js/simple.js:40-45 | openWindow keeps the set of windows, shows the window, advances the counter and leaves a button for it |
| WindowManager.Close | js/simple.js:47-51 | closeWindow keeps the set of windows, hides the window, never adds a button, and leaves windowState and the counter alone |
| WindowManager.Minimize | js/simple.js:53-59 | minimize keeps the set of windows, hides the window, keeps the ids of the buttons in order, and leaves windowState and the counter alone |
| WindowManager.Maximize | js/simple.js:61-91 | maximize keeps the set of windows, advances the counter, and records the window as maximized exactly when it was not |
| WindowManager.Toggle | js/simple.js:169-178 | toggleWindow keeps the set of windows and flips whether the window is hidden |
| WindowManager.DragStart | js/simple.js:113-118 | a press keeps the set of windows and registers one more listener, for that window |
| WindowManager.Moved | js/simple.js:120-124 | the windows after the registered move listeners have run are the same set of windows |
| WindowManager.DragMove | js/simple.js:120-124 | a mousemove keeps the set of windows and the registered listeners |
| WindowManager.DragEnd | js/simple.js:126-129 | after a mouseup every later mousemove changes nothing |
| WindowManager.KeyDown | js/simple.js:8-21 | Enter always leaves the desktop started; once started nothing changes; starting hides the boot screen, shows the desktop and sets the timer |
| WindowManager.AboutTimer | js/simple.js:28-30 | the timer callback keeps the set of windows, clears the pending flag, shows "about" and leaves a button for it |
| WindowManager.Dispatch | js/simple.js:193-224 | the switch answers the command on the output; only "exit" touches windows or taskbar, and it hides the terminal |
| WindowManager.TerminalCommand | js/simple.js:184-227 | a key other than Enter changes nothing; Enter empties the input and the output becomes `Respond` of the trimmed command |
| Windows.MoveTo | js/simple.js:120-124 | one drag step changes only left and top, and a window that fits ends inside the viewport above the taskbar |
| Simple.Desktop.constructor | js/simple.js:37-38 | the object starts as the initial page state and is valid |
| Simple.Desktop.KeyDown | js/simple.js:8-12 | the document keydown handler keeps validity and is the pure KeyDown |
| Simple.Desktop.StartDesktop | js/simple.js:15-21 | sets desktopStarted, hides the boot screen, shows the desktop and schedules the timer |
| Simple.Desktop.AboutTimer | js/simple.js:28-30 | the timer callback is the pure AboutTimer |
| Simple.Desktop.OpenWindow | js/simple.js:40-45 | openWindow keeps validity and is the pure Open |
| Simple.Desktop.CloseWindow | js/simple.js:47-51 | closeWindow keeps validity and is the pure Close |
| Simple.Desktop.Minimize | js/simple.js:53-59 | minimize keeps validity and is the pure Minimize |
| Simple.Desktop.Maximize | js/simple.js:61-91 | maximize keeps validity and is the pure Maximize |
| Simple.Desktop.SaveOrRestore | js/simple.js:64-88 | the two branches of maximize write exactly the window and windowState entry that ToggleMaximize gives |
| Simple.Desktop.FocusWindow | js/simple.js:93-104 | focusWindow (increment, z-index, lookup, clear loop, highlight) is the pure Focus |
| Simple.Desktop.ToggleWindow | js/simple.js:169-178 | toggleWindow keeps validity and is the pure Toggle |
| Simple.Desktop.Drag | js/simple.js:113-133 | drag keeps validity and is the pure DragStart |
| Simple.Desktop.Move | js/simple.js:120-124 | a mousemove keeps validity and is the pure DragMove |
| Simple.Desktop.RunMoveListeners | js/simple.js:120-124 | running the registered move listeners in order gives the moved windows |
| Simple.Desktop.Stop | js/simple.js:126-129 | a mouseup keeps validity and is the pure DragEnd |
| Simple.Desktop.KeepInBounds | js/simple.js:135-143 | the four checks, in order, each reading the updated position, give KeptInBounds |
| Simple.Desktop.FindButton | js/simple.js:99 | the loop returns the first button for the id, or none exactly when there is none |
| Simple.Desktop.ClearActive | js/simple.js:101 | the loop clears every active flag and changes nothing else |
| Simple.Desktop.AddToTaskbar | js/simple.js:149-162 | addToTaskbar is the pure Add |
| Simple.Desktop.RemoveFromTaskbar | js/simple.js:164-167 | removeFromTaskbar is the pure Remove |
| Simple.Desktop.SetInput | js/simple.js:187-189 | the user's typing sets the value that terminalCommand reads |
| Simple.Desktop.TerminalCommand | js/simple.js:184-227 | terminalCommand keeps validity and is the pure TerminalCommand |
| Simple.Desktop.RunCommand | js/simple.js:191-226 | the Enter branch after trimming (echo, switch, clearing the input) is the pure Dispatch on the echoed state with the input emptied |
| Simple.Desktop.Dispatch | js/simple.js:193-224 | the switch keeps validity and is the pure Dispatch |

## Behaviour of the code worth knowing

- Clamp order. In `keepInBounds` the checks against 0 run first and the checks against the maximum run last. So a window wider (or taller) than the viewport ends at a negative position: the upper bound wins (`Geometry.ClampAxis`, `WindowManager.DragMoveProperties`).
- Unknown ids. The code uses the result of `getElementById` without a null check, so an operation on an id with no element throws. The model makes the id's existence a precondition wherever the code does such a lookup.
- Saved geometry. On restore the saved lengths stay in `windowState` with the flag cleared. A later maximize overwrites them.
- Taskbar highlight. A window without a button leaves every flag as it was when focused, and `openWindow` focuses before it adds the button. So a first open does not highlight the new button, and the previously active button stays active.
- Minimize clears only the minimized window's own button flag. There is no notion of an "active window" beyond the flags.

## Left out

- Element lookup and page structure: ids are assumed to name existing window elements. Only taskbar buttons are assumed to carry a `data-window` attribute, so the lookup searches the taskbar. The taskbar and the terminal output are assumed empty when the page loads.
- CSS and layout: only the four inline length forms the script writes are modelled. A window's rendered position equals its inline `left`/`top`, a `px` value renders as that many whole pixels, and an empty value renders as the stylesheet's `Box` value. Fractional pixels, margins, borders and the offset parent are not modelled. `100vw` renders as the viewport width, with no scrollbar.
- Measuring hidden windows: the model measures every window as if it were shown. In a browser, a window with `display: none` has `offsetLeft`, `offsetTop`, `offsetWidth` and `offsetHeight` all 0. So when a stale move listener runs for a minimized or closed window, `keepInBounds` (js/simple.js:135-143) sees 0 and does not clamp. `WindowManager.Moved` and `Windows.KeptInBounds` clamp that window against its shown geometry instead.
- Window ids are assumed plain, with no `'` and no `\`. The code pastes the id unescaped into a `[data-window='…']` selector (js/simple.js:57, 99, 153, 165). With a `'` in the id the selector is invalid and `querySelector` throws; in `focusWindow` that happens after the z-index increment. With a `\` in the id the selector reads it as a CSS escape and may match another button. The model accepts any string id, never throws, and always finds the button with exactly that id.
- Inline `display` of a window before its first open is not set ("" in the model). The stylesheet default that actually hides it is not modelled.
- The z-index counter is an unbounded integer; the precision limit of JavaScript numbers is not modelled.
- The boot sound (volume and play, js/simple.js:23-25) is audio I/O and is left out. The 400 ms `setTimeout` is a pending flag, and its callback is the method `AboutTimer`.
- Event-listener registration is modelled as the sequence `listeners`, one entry per press. A mouseup removes every pair. Dispatch order among listeners is their registration order.
- The terminal's HTML markup, and the fact that the command text is inserted into `innerHTML` unescaped, are not modelled: output lines are abstract values. The text of the help, neofetch and secret answers, including the `innerWidth`/`innerHeight` values printed by neofetch, is display content only. Scrolling the output (js/simple.js:227) is not modelled.
- The clock (js/simple.js:235-246) reads the system time on a timer and never touches window state, so it is left out.
- Concurrency: everything runs on one event thread, and each handler runs to completion.
