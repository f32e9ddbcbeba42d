/**
 * js/simple.js as it runs: one object holding the script's globals and the parts
 * of the page it writes, with one method per function of the script. The event
 * handlers require and keep Valid(), and each is proved equal to its counterpart in
 * WindowManager, where the properties of the operations are proved. Two helpers of
 * TerminalCommand also require Valid(): Dispatch, which keeps it and is proved equal to
 * the pure Dispatch, and RunCommand, proved equal to the pure Dispatch on the echoed
 * state with the input emptied. The other helpers are proved against their own
 * functions (Focus, ToggleMaximize, KeptInBounds, Moved, FirstIndex, Cleared,
 * AddToTaskbar, RemoveFromTaskbar) and do not require Valid(); StartDesktop is stated
 * by the flags it sets.
 */
module Simple {
  import opened Wrappers
  import opened Geometry
  import opened Windows
  import Taskbar
  import Terminal
  import WM = WindowManager

  class Desktop {
    var windows: map<string, Win>
    var saved: map<string, Saved>
    var zCounter: int
    var taskbar: seq<Taskbar.Entry>
    var offsetX: int
    var offsetY: int
    var listeners: seq<string>
    var started: bool
    var bootShown: bool
    var desktopShown: bool
    var aboutPending: bool
    var output: seq<Terminal.Line>
    var input: string

    /** The value this object stands for. */
    function Model(): WM.Desk
      reads this
    {
      WM.Desk(windows, saved, zCounter, taskbar, offsetX, offsetY, listeners,
              started, bootShown, desktopShown, aboutPending, output, input)
    }

    ghost predicate Valid()
      reads this
    {
      WM.WellFormed(Model())
    }

    /** The page as it loads, with the given window elements. */
    constructor (sheets: map<string, Box>)
      ensures Valid() && Model() == WM.Initial(sheets)
    {
      windows := map id | id in sheets :: Pristine(sheets[id]);
      saved := map[];
      zCounter := WM.InitialZ;
      taskbar := [];
      offsetX, offsetY := 0, 0;
      listeners := [];
      started, bootShown, desktopShown, aboutPending := false, true, false, false;
      output := [];
      input := "";
    }

    // ---------------------------------------------------------------- boot

    /** The document's keydown handler before the desktop exists. */
    method KeyDown(key: string)
      requires Valid()
      modifies this
      ensures Valid() && Model() == WM.KeyDown(old(Model()), key)
    {
      if key == "Enter" && !started {
        StartDesktop();
      }
    }

    /** startDesktop: the boot sound is not modelled; the timer is recorded as pending. */
    method StartDesktop()
      modifies this`started, this`bootShown, this`desktopShown, this`aboutPending
      ensures started && !bootShown && desktopShown && aboutPending
    {
      started := true;
      bootShown := false;
      desktopShown := true;
      aboutPending := true;
    }

    /** The start-up timer's callback. */
    method AboutTimer()
      requires Valid() && aboutPending && "about" in windows
      modifies this
      ensures Valid() && Model() == WM.AboutTimer(old(Model()))
    {
      aboutPending := false;
      OpenWindow("about");
    }

    // ---------------------------------------------------------------- windows

    /** openWindow */
    method OpenWindow(id: string)
      requires Valid() && id in windows
      modifies this
      ensures Valid() && Model() == WM.Open(old(Model()), id)
    {
      windows := windows[id := windows[id].(display := Block)];
      FocusWindow(id);
      AddToTaskbar(id);
      WM.OpenKeeps(old(Model()), id);
    }

    /** closeWindow */
    method CloseWindow(id: string)
      requires Valid() && id in windows
      modifies this
      ensures Valid() && Model() == WM.Close(old(Model()), id)
    {
      windows := windows[id := windows[id].(display := Hidden)];
      RemoveFromTaskbar(id);
      WM.CloseKeeps(old(Model()), id);
    }

    /** minimize */
    method Minimize(id: string)
      requires Valid() && id in windows
      modifies this
      ensures Valid() && Model() == WM.Minimize(old(Model()), id)
    {
      windows := windows[id := windows[id].(display := Hidden)];
      var btn := FindButton(id);
      if btn.Some? {
        taskbar := taskbar[btn.value := taskbar[btn.value].(active := false)];
      }
      assert taskbar == Taskbar.Deactivate(old(taskbar), id);
      assert Model() == WM.Minimize(old(Model()), id);
      WM.MinimizeKeeps(old(Model()), id);
    }

    /** maximize */
    method Maximize(id: string)
      requires Valid() && id in windows
      modifies this
      ensures Valid() && Model() == WM.Maximize(old(Model()), id)
    {
      SaveOrRestore(id);
      ghost var u := Model();
      FocusWindow(id);
      WM.MaximizeKeeps(old(Model()), id);
      assert WM.Maximize(old(Model()), id) == WM.Focus(u, id);
    }

    /** The two branches of maximize before its focusWindow call. */
    method SaveOrRestore(id: string)
      requires id in windows
      modifies this`windows, this`saved
      ensures var t := ToggleMaximize(old(windows)[id], WM.SavedOf(old(Model()), id));
        windows == old(windows)[id := t.0] && saved == old(saved)[id := t.1]
    {
      var win := windows[id];
      if id !in saved || !saved[id].maximized {
        saved := saved[id := Saved(true, Geom(win.top, win.left, win.width, win.height))];
        windows := windows[id := win.(top := Px(0), left := Px(0), width := FullWidth, height := FullHeight)];
      } else {
        var g := saved[id].kept;
        windows := windows[id := win.(top := g.top, left := g.left, width := g.width, height := g.height)];
        saved := saved[id := saved[id].(maximized := false)];
      }
    }

    /** focusWindow */
    method FocusWindow(id: string)
      requires id in windows
      modifies this`zCounter, this`windows, this`taskbar
      ensures Model() == WM.Focus(old(Model()), id)
    {
      zCounter := zCounter + 1;
      windows := windows[id := windows[id].(z := Some(zCounter))];
      var btn := FindButton(id);
      if btn.Some? {
        ClearActive();
        taskbar := taskbar[btn.value := taskbar[btn.value].(active := true)];
      }
      assert taskbar == Taskbar.Highlight(old(taskbar), id);
    }

    /** toggleWindow */
    method ToggleWindow(id: string)
      requires Valid() && id in windows
      modifies this
      ensures Valid() && Model() == WM.Toggle(old(Model()), id)
    {
      if windows[id].display == Hidden {
        windows := windows[id := windows[id].(display := Block)];
        FocusWindow(id);
      } else {
        windows := windows[id := windows[id].(display := Hidden)];
      }
      WM.ToggleKeeps(old(Model()), id);
    }

    // ---------------------------------------------------------------- drag

    /** drag: the press on a title bar at (cx, cy). */
    method Drag(id: string, cx: int, cy: int, vw: int, vh: int)
      requires Valid() && id in windows
      modifies this
      ensures Valid() && Model() == WM.DragStart(old(Model()), id, cx, cy, vw, vh)
    {
      FocusWindow(id);
      ghost var f := Model();
      offsetX := cx - OffsetLeft(windows[id], vw, vh);
      offsetY := cy - OffsetTop(windows[id], vw, vh);
      listeners := listeners + [id];
      ghost var target := WM.DragStart(old(Model()), id, cx, cy, vw, vh);
      WM.DragStartKeeps(old(Model()), id, cx, cy, vw, vh);
      assert f == WM.Focus(old(Model()), id);
      assert Model() == target;
    }

    /** A mousemove at (cx, cy). */
    method Move(cx: int, cy: int, vw: int, vh: int)
      requires Valid()
      modifies this`windows
      ensures Valid() && Model() == WM.DragMove(old(Model()), cx, cy, vw, vh)
    {
      ghost var before := Model();
      RunMoveListeners(cx - offsetX, cy - offsetY, vw, vh);
      ghost var target := WM.DragMove(before, cx, cy, vw, vh);
      WM.DragMoveKeeps(before, cx, cy, vw, vh);
      assert target.windows == windows;
      assert Model() == target;
    }

    /** Each registered move listener runs in turn, placing its window at (x, y) and clamping it. */
    method RunMoveListeners(x: int, y: int, vw: int, vh: int)
      requires forall j :: 0 <= j < |listeners| ==> listeners[j] in windows
      modifies this`windows
      ensures windows == WM.Moved(old(windows), listeners, x, y, vw, vh)
    {
      var i := 0;
      while i < |listeners|
        invariant 0 <= i <= |listeners|
        invariant windows == WM.Moved(old(windows), listeners[..i], x, y, vw, vh)
      {
        var id := listeners[i];
        WM.MovedStep(old(windows), listeners[..i], id, x, y, vw, vh);
        windows := windows[id := windows[id].(left := Px(x), top := Px(y))];
        KeepInBounds(id, vw, vh);
        assert listeners[..i + 1] == listeners[..i] + [id];
        i := i + 1;
      }
      assert listeners[..i] == listeners;
    }

    /** A mouseup: every stop listener removes its pair of listeners. */
    method Stop()
      requires Valid()
      modifies this
      ensures Valid() && Model() == WM.DragEnd(old(Model()))
    {
      listeners := [];
    }

    /** keepInBounds: the four checks in the source's order, each reading the rendered position anew. */
    method KeepInBounds(id: string, vw: int, vh: int)
      requires id in windows
      modifies this`windows
      ensures windows == old(windows)[id := KeptInBounds(old(windows)[id], vw, vh)]
    {
      var win := windows[id];
      var maxX := vw - OffsetWidth(win, vw, vh);
      var maxY := vh - OffsetHeight(win, vw, vh) - TaskbarHeight;
      if OffsetLeft(win, vw, vh) < 0 { win := win.(left := Px(0)); }
      if OffsetTop(win, vw, vh) < 0 { win := win.(top := Px(0)); }
      if OffsetLeft(win, vw, vh) > maxX { win := win.(left := Px(maxX)); }
      if OffsetTop(win, vw, vh) > maxY { win := win.(top := Px(maxY)); }
      windows := windows[id := win];
    }

    // ---------------------------------------------------------------- taskbar

    /** querySelector(`[data-window='id']`) over the taskbar: the first button for `id`. */
    method FindButton(id: string) returns (k: Option<nat>)
      ensures k == Taskbar.FirstIndex(taskbar, id)
      ensures k.None? <==> !Taskbar.Has(taskbar, id)
    {
      var i := 0;
      while i < |taskbar|
        invariant 0 <= i <= |taskbar|
        invariant forall j :: 0 <= j < i ==> taskbar[j].id != id
      {
        if taskbar[i].id == id {
          return Some(i);
        }
        i := i + 1;
      }
      return None;
    }

    /** The forEach of focusWindow over every ".taskbtn". */
    method ClearActive()
      modifies this`taskbar
      ensures taskbar == Taskbar.Cleared(old(taskbar))
    {
      var i := 0;
      while i < |taskbar|
        invariant 0 <= i <= |taskbar| == |old(taskbar)|
        invariant forall j :: 0 <= j < i ==> taskbar[j] == old(taskbar)[j].(active := false)
        invariant forall j :: i <= j < |taskbar| ==> taskbar[j] == old(taskbar)[j]
      {
        taskbar := taskbar[i := taskbar[i].(active := false)];
        i := i + 1;
      }
    }

    /** addToTaskbar */
    method AddToTaskbar(id: string)
      modifies this`taskbar
      ensures Model() == WM.AddToTaskbar(old(Model()), id)
    {
      var btn := FindButton(id);
      if btn.Some? {
        return;
      }
      taskbar := taskbar + [Taskbar.Entry(id, false)];
    }

    /** removeFromTaskbar */
    method RemoveFromTaskbar(id: string)
      modifies this`taskbar
      ensures Model() == WM.RemoveFromTaskbar(old(Model()), id)
    {
      var btn := FindButton(id);
      if btn.Some? {
        taskbar := taskbar[..btn.value] + taskbar[btn.value + 1..];
      }
    }

    // ---------------------------------------------------------------- terminal

    /** The user types into the terminal's input field. */
    method SetInput(s: string)
      requires Valid()
      modifies this`input
      ensures Valid() && Model() == WM.SetInput(old(Model()), s)
    {
      input := s;
    }

    /** terminalCommand: the keydown handler of the terminal's input field. */
    method TerminalCommand(key: string)
      requires Valid()
      requires key == "Enter" && Terminal.Trim(input) == "exit" ==> "terminal" in windows
      modifies this
      ensures Valid() && Model() == WM.TerminalCommand(old(Model()), key)
    {
      if key != "Enter" {
        return;
      }
      var cmd := Terminal.Trim(input);
      RunCommand(cmd);
      WM.TerminalCommandKeeps(old(Model()), key);
    }

    /** The Enter branch of terminalCommand once the command is trimmed: echo, switch, clear the input. */
    method RunCommand(cmd: string)
      requires Valid() && (cmd == "exit" ==> "terminal" in windows)
      modifies this
      ensures Model() == WM.Dispatch(old(Model()).(output := old(output) + [Terminal.Echo(cmd)]), cmd).(input := "")
    {
      output := output + [Terminal.Echo(cmd)];
      Dispatch(cmd);
      input := "";
    }

    /** The switch of terminalCommand. */
    method Dispatch(cmd: string)
      requires Valid() && (cmd == "exit" ==> "terminal" in windows)
      modifies this
      ensures Valid() && Model() == WM.Dispatch(old(Model()), cmd)
    {
      match cmd {
        case "help" => output := output + [Terminal.HelpText];
        case "clear" => output := [];
        case "exit" => CloseWindow("terminal");
        case "neofetch" => output := output + [Terminal.NeofetchText];
        case "about --secret" => output := output + [Terminal.SecretText];
        case _ => output := output + [Terminal.NotFound(cmd)];
      }
    }
  }
}
