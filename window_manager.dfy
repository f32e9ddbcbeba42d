/**
 * The whole state js/simple.js keeps (its globals and the parts of the page it
 * writes) as one value, and each of its operations as a function on that value.
 * The class Simple.Desktop runs the same operations step by step and is proved
 * against these functions.
 */
module WindowManager {
  import opened Wrappers
  import opened Geometry
  import opened Windows
  import Taskbar
  import Terminal

  /** A window element's id. */
  type Id = string

  datatype Desk = Desk(
    windows: map<Id, Win>,         // the window elements, by id
    saved: map<Id, Saved>,         // windowState
    zCounter: int,                 // zIndexCounter
    taskbar: seq<Taskbar.Entry>,   // the buttons of the taskbar, in order
    offsetX: int,                  // offsetX of the drag code
    offsetY: int,                  // offsetY of the drag code
    listeners: seq<Id>,            // one per drag whose move/stop listeners are registered
    started: bool,                 // desktopStarted
    bootShown: bool,               // the boot screen is displayed
    desktopShown: bool,            // the desktop lacks the "hidden" class
    aboutPending: bool,            // the timer that opens "about" is scheduled
    output: seq<Terminal.Line>,    // the terminal's output lines
    input: string)                 // the terminal's input field

  /** The value zIndexCounter starts from. */
  const InitialZ: int := 50

  /** No window has a z-index above the counter. */
  predicate ZBelowCounter(d: Desk)
  {
    forall id :: id in d.windows && d.windows[id].z.Some? ==> d.windows[id].z.value <= d.zCounter
  }

  /** No two windows share a z-index. */
  predicate ZDistinct(ws: map<Id, Win>)
  {
    forall a, b :: a in ws && b in ws && a != b && ws[a].z.Some? ==> ws[a].z != ws[b].z
  }

  /**
   * What every reachable state satisfies: buttons stand for existing windows, one
   * button per window, at most one highlighted, z-indices distinct and not above the
   * counter, and dragged windows exist.
   */
  predicate WellFormed(d: Desk)
  {
    && (forall i :: 0 <= i < |d.taskbar| ==> d.taskbar[i].id in d.windows)
    && Taskbar.NoDuplicates(d.taskbar)
    && Taskbar.AtMostOneActive(d.taskbar)
    && ZBelowCounter(d)
    && ZDistinct(d.windows)
    && (forall i :: 0 <= i < |d.listeners| ==> d.listeners[i] in d.windows)
  }

  /** The page as it loads: the given windows with no inline style, the boot screen up. */
  function Initial(sheets: map<Id, Box>): (d: Desk)
    ensures WellFormed(d)
    ensures d.windows.Keys == sheets.Keys
    ensures forall id :: id in sheets ==> d.windows[id] == Pristine(sheets[id])
    ensures d.zCounter == InitialZ && d.taskbar == [] && d.saved == map[] && d.listeners == []
    ensures !d.started && d.bootShown && !d.desktopShown && !d.aboutPending
    ensures d.offsetX == 0 && d.offsetY == 0 && d.output == [] && d.input == ""
  {
    Desk(map id | id in sheets :: Pristine(sheets[id]), map[], InitialZ, [], 0, 0, [],
         false, true, false, false, [], "")
  }

  // ------------------------------------------------------------------ operations

  /** focusWindow: the next z-index to the window, and its button, if any, becomes the only active one. */
  function Focus(d: Desk, id: Id): (r: Desk)
    requires id in d.windows
    ensures r.windows.Keys == d.windows.Keys && Taskbar.Ids(r.taskbar) == Taskbar.Ids(d.taskbar)
    ensures r.zCounter == d.zCounter + 1 && r.windows[id].z == Some(r.zCounter)
  {
    var z := d.zCounter + 1;
    d.(zCounter := z,
       windows := d.windows[id := d.windows[id].(z := Some(z))],
       taskbar := Taskbar.Highlight(d.taskbar, id))
  }

  function SetDisplay(d: Desk, id: Id, v: Display): Desk
    requires id in d.windows
  {
    d.(windows := d.windows[id := d.windows[id].(display := v)])
  }

  /** addToTaskbar */
  function AddToTaskbar(d: Desk, id: Id): Desk
  {
    d.(taskbar := Taskbar.Add(d.taskbar, id))
  }

  /** removeFromTaskbar */
  function RemoveFromTaskbar(d: Desk, id: Id): Desk
  {
    d.(taskbar := Taskbar.Remove(d.taskbar, id))
  }

  /** openWindow: show, focus, and only then make sure a button exists. */
  function Open(d: Desk, id: Id): (r: Desk)
    requires id in d.windows
    ensures r.windows.Keys == d.windows.Keys && r.windows[id].display == Block
    ensures r.zCounter == d.zCounter + 1 && Taskbar.Has(r.taskbar, id)
  {
    AddToTaskbar(Focus(SetDisplay(d, id, Block), id), id)
  }

  /** closeWindow: hide and remove the button; windowState is left alone. */
  function Close(d: Desk, id: Id): (r: Desk)
    requires id in d.windows
    ensures r.windows.Keys == d.windows.Keys && r.windows[id].display == Hidden
    ensures |r.taskbar| <= |d.taskbar| && r.saved == d.saved && r.zCounter == d.zCounter
  {
    RemoveFromTaskbar(SetDisplay(d, id, Hidden), id)
  }

  /** minimize: hide and clear the button's highlight; the button stays. */
  function Minimize(d: Desk, id: Id): (r: Desk)
    requires id in d.windows
    ensures r.windows.Keys == d.windows.Keys && r.windows[id].display == Hidden
    ensures Taskbar.Ids(r.taskbar) == Taskbar.Ids(d.taskbar)
    ensures r.saved == d.saved && r.zCounter == d.zCounter
  {
    SetDisplay(d, id, Hidden).(taskbar := Taskbar.Deactivate(d.taskbar, id))
  }

  /** The windowState record of a window, absent before its first maximize. */
  function SavedOf(d: Desk, id: Id): Option<Saved>
  {
    if id in d.saved then Some(d.saved[id]) else None
  }

  /** maximize: maximize or restore, then focus either way. */
  function Maximize(d: Desk, id: Id): (r: Desk)
    requires id in d.windows
    ensures r.windows.Keys == d.windows.Keys && r.zCounter == d.zCounter + 1
    ensures id in r.saved && r.saved[id].maximized == !IsMaximized(SavedOf(d, id))
  {
    var (w, s) := ToggleMaximize(d.windows[id], SavedOf(d, id));
    Focus(d.(windows := d.windows[id := w], saved := d.saved[id := s]), id)
  }

  /** toggleWindow (the taskbar button's click): a window whose display is "none" is shown and focused, any other is hidden. */
  function Toggle(d: Desk, id: Id): (r: Desk)
    requires id in d.windows
    ensures r.windows.Keys == d.windows.Keys
    ensures (r.windows[id].display == Hidden) != (d.windows[id].display == Hidden)
  {
    if d.windows[id].display == Hidden then Focus(SetDisplay(d, id, Block), id)
    else SetDisplay(d, id, Hidden)
  }

  /** drag (press on a title bar): focus, record pointer minus position, register the listeners. */
  function DragStart(d: Desk, id: Id, cx: int, cy: int, vw: int, vh: int): (r: Desk)
    requires id in d.windows
    ensures r.windows.Keys == d.windows.Keys && r.listeners == d.listeners + [id]
  {
    var f := Focus(d, id);
    var w := f.windows[id];
    f.(offsetX := cx - OffsetLeft(w, vw, vh),
       offsetY := cy - OffsetTop(w, vw, vh),
       listeners := f.listeners + [id])
  }

  /** The windows after the move listeners of `ls` have placed theirs at (x, y) and clamped them. */
  function Moved(ws: map<Id, Win>, ls: seq<Id>, x: int, y: int, vw: int, vh: int): (r: map<Id, Win>)
    ensures r.Keys == ws.Keys
  {
    map k | k in ws :: if k in ls then MoveTo(ws[k], x, y, vw, vh) else ws[k]
  }

  /** Running one more listener, for window id, moves that window from wherever the earlier ones left it. */
  lemma MovedStep(ws: map<Id, Win>, ls: seq<Id>, id: Id, x: int, y: int, vw: int, vh: int)
    requires id in ws
    ensures var cur := Moved(ws, ls, x, y, vw, vh);
      Moved(ws, ls + [id], x, y, vw, vh) == cur[id := MoveTo(cur[id], x, y, vw, vh)]
  {
    var cur := Moved(ws, ls, x, y, vw, vh);
    MoveToForgetsPosition(ws[id], cur[id].left, cur[id].top, x, y, vw, vh);
    assert cur[id] == ws[id].(left := cur[id].left, top := cur[id].top);
  }

  /** A mousemove: every registered move listener places its window at pointer minus offset and clamps it. */
  function DragMove(d: Desk, cx: int, cy: int, vw: int, vh: int): (r: Desk)
    ensures r.windows.Keys == d.windows.Keys && r.listeners == d.listeners
  {
    d.(windows := Moved(d.windows, d.listeners, cx - d.offsetX, cy - d.offsetY, vw, vh))
  }

  /** A mouseup: every stop listener removes itself and its move listener. */
  function DragEnd(d: Desk): (r: Desk)
    ensures forall cx, cy, vw, vh :: DragMove(r, cx, cy, vw, vh) == r
  {
    d.(listeners := [])
  }

  /** The boot screen's keydown: Enter starts the desktop the first time only. */
  function KeyDown(d: Desk, key: string): (r: Desk)
    ensures key == "Enter" ==> r.started
    ensures d.started ==> r == d
    ensures r.started && !d.started ==> !r.bootShown && r.desktopShown && r.aboutPending
  {
    if key == "Enter" && !d.started then
      d.(started := true, bootShown := false, desktopShown := true, aboutPending := true)
    else d
  }

  /** The start-up timer fires and opens "about". */
  function AboutTimer(d: Desk): (r: Desk)
    requires d.aboutPending && "about" in d.windows
    ensures r.windows.Keys == d.windows.Keys
    ensures !r.aboutPending && r.windows["about"].display == Block && Taskbar.Has(r.taskbar, "about")
  {
    Open(d.(aboutPending := false), "about")
  }

  /** Typing into the terminal's input field. */
  function SetInput(d: Desk, s: string): Desk
  {
    d.(input := s)
  }

  /** The switch of terminalCommand, after the echo line: answer the command, and close the terminal on "exit". */
  function Dispatch(d: Desk, cmd: string): (r: Desk)
    requires cmd == "exit" ==> "terminal" in d.windows
    ensures r.windows.Keys == d.windows.Keys && r.output == Terminal.Answer(d.output, cmd)
    ensures cmd != "exit" ==> r.windows == d.windows && r.taskbar == d.taskbar
    ensures cmd == "exit" ==> r.windows["terminal"].display == Hidden
  {
    var answered := d.(output := Terminal.Answer(d.output, cmd));
    if cmd == "exit" then Close(answered, "terminal") else answered
  }

  /** terminalCommand: on Enter, echo the trimmed input, answer it, and empty the input. */
  function TerminalCommand(d: Desk, key: string): (r: Desk)
    requires key == "Enter" && Terminal.Trim(d.input) == "exit" ==> "terminal" in d.windows
    ensures key != "Enter" ==> r == d
    ensures key == "Enter" ==> r.input == "" && r.output == Terminal.Respond(d.output, Terminal.Trim(d.input))
  {
    if key != "Enter" then d
    else
      var cmd := Terminal.Trim(d.input);
      Dispatch(d.(output := d.output + [Terminal.Echo(cmd)]), cmd).(input := "")
  }

  // ------------------------------------------------------------------ focus

  /**
   * The state f after focusing id in d: the counter moves by one and goes to the
   * window, which ends strictly above every other window; no other window changes;
   * the window's button becomes the only active one, or every flag stays as it was
   * when it has none; nothing else changes.
   */
  predicate FocusPost(d: Desk, id: Id, f: Desk)
    requires id in d.windows
  {
    && f.windows.Keys == d.windows.Keys
    && f.zCounter == d.zCounter + 1
    && f.windows[id] == d.windows[id].(z := Some(f.zCounter))
    && (forall k :: k in d.windows && k != id && d.windows[k].z.Some? ==>
          d.windows[k].z.value < f.windows[id].z.value)
    && (forall k :: k in d.windows && k != id ==> f.windows[k] == d.windows[k])
    && Taskbar.Ids(f.taskbar) == Taskbar.Ids(d.taskbar)
    && (Taskbar.Has(d.taskbar, id) ==>
          forall i :: 0 <= i < |f.taskbar| ==> (f.taskbar[i].active <==> f.taskbar[i].id == id))
    && (!Taskbar.Has(d.taskbar, id) ==> f.taskbar == d.taskbar)
    && f == d.(zCounter := f.zCounter, windows := f.windows, taskbar := f.taskbar)
  }

  /**
   * Focus raises the window strictly above every other window, moves the counter by
   * one, touches no other window, and leaves the button of the window as the only
   * active one (or every flag as it was when it has no button).
   */
  lemma FocusProperties(d: Desk, id: Id)
    requires WellFormed(d) && id in d.windows
    ensures WellFormed(Focus(d, id)) && FocusPost(d, id, Focus(d, id))
  {
    FocusFrame(d, id);
    FocusKeeps(d, id);
  }

  /** What Focus changes and what it keeps, apart from well-formedness. */
  lemma FocusFrame(d: Desk, id: Id)
    requires Taskbar.NoDuplicates(d.taskbar) && ZBelowCounter(d) && id in d.windows
    ensures FocusPost(d, id, Focus(d, id))
  {
    Taskbar.HighlightMarksOnly(d.taskbar, id);
  }

  /** Focus keeps the state well formed. */
  lemma FocusKeeps(d: Desk, id: Id)
    requires WellFormed(d) && id in d.windows
    ensures WellFormed(Focus(d, id))
  {
    var f := Focus(d, id);
    Taskbar.HighlightMarksOnly(d.taskbar, id);
    Taskbar.SameIdsNoDuplicates(d.taskbar, f.taskbar);
    forall i | 0 <= i < |f.taskbar| ensures f.taskbar[i].id in f.windows {
      assert Taskbar.Ids(f.taskbar)[i] == Taskbar.Ids(d.taskbar)[i];
    }
  }

  /** Focusing a and then b puts b above a and leaves b's button, if any, the only active one. */
  lemma FocusThenFocus(d: Desk, a: Id, b: Id)
    requires WellFormed(d) && a in d.windows && b in d.windows && a != b
    ensures var f := Focus(Focus(d, a), b);
      && f.windows[b].z.value > f.windows[a].z.value
      && f.windows[a].z == Some(d.zCounter + 1)
      && (Taskbar.Has(d.taskbar, b) ==>
            forall i :: 0 <= i < |f.taskbar| ==> (f.taskbar[i].active <==> f.taskbar[i].id == b))
  {
    FocusProperties(d, a);
    var f1 := Focus(d, a);
    FocusProperties(f1, b);
    Taskbar.SameIdsHas(d.taskbar, f1.taskbar, b);
  }

  // ------------------------------------------------------------------ lifecycle

  /** Changing a window's display keeps the state well formed. */
  lemma SetDisplayKeeps(d: Desk, id: Id, v: Display)
    requires WellFormed(d) && id in d.windows
    ensures WellFormed(SetDisplay(d, id, v))
  {
  }

  /** Any taskbar of distinct buttons for existing windows, at most one active, keeps the state well formed. */
  lemma WellFormedWithTaskbar(d: Desk, tb: seq<Taskbar.Entry>)
    requires WellFormed(d) && Taskbar.NoDuplicates(tb) && Taskbar.AtMostOneActive(tb)
    requires forall i :: 0 <= i < |tb| ==> tb[i].id in d.windows
    ensures WellFormed(d.(taskbar := tb))
  {
  }

  /**
   * The state o after opening id in d: the window is shown and raised; a window that
   * had a button keeps every button and ends with the only active one; a window
   * without one gets a new inactive button at the end and every other flag stays as it
   * was; nothing else changes.
   */
  predicate OpenPost(d: Desk, id: Id, o: Desk)
    requires id in d.windows
  {
    && o.zCounter == d.zCounter + 1
    && o.windows == d.windows[id := d.windows[id].(display := Block, z := Some(o.zCounter))]
    && Taskbar.Has(o.taskbar, id)
    && (Taskbar.Has(d.taskbar, id) ==>
          Taskbar.Ids(o.taskbar) == Taskbar.Ids(d.taskbar)
          && forall i :: 0 <= i < |o.taskbar| ==> (o.taskbar[i].active <==> o.taskbar[i].id == id))
    && (!Taskbar.Has(d.taskbar, id) ==> o.taskbar == d.taskbar + [Taskbar.Entry(id, false)])
    && o == d.(windows := o.windows, zCounter := o.zCounter, taskbar := o.taskbar)
  }

  /**
   * Open shows and raises the window and guarantees exactly one button for it. A
   * window that had a button ends with the only active one; a window without one gets
   * a new inactive button at the end while every other flag stays as it was.
   */
  lemma OpenProperties(d: Desk, id: Id)
    requires WellFormed(d) && id in d.windows
    ensures WellFormed(Open(d, id)) && OpenPost(d, id, Open(d, id))
  {
    OpenFrame(d, id);
    OpenKeeps(d, id);
  }

  /** What Open changes and what it keeps, apart from well-formedness. */
  lemma OpenFrame(d: Desk, id: Id)
    requires Taskbar.NoDuplicates(d.taskbar) && id in d.windows
    ensures OpenPost(d, id, Open(d, id))
  {
    var h := Taskbar.Highlight(d.taskbar, id);
    Taskbar.HighlightMarksOnly(d.taskbar, id);
    Taskbar.AddProperties(h, id);
    Taskbar.SameIdsHas(d.taskbar, h, id);
    var o := Open(d, id);
    assert o.taskbar == Taskbar.Add(h, id);
    assert o.windows == d.windows[id := d.windows[id].(display := Block, z := Some(o.zCounter))];
  }

  /** Open keeps the state well formed. */
  lemma OpenKeeps(d: Desk, id: Id)
    requires WellFormed(d) && id in d.windows
    ensures WellFormed(Open(d, id))
  {
    var s := SetDisplay(d, id, Block);
    SetDisplayKeeps(d, id, Block);
    FocusKeeps(s, id);
    var f := Focus(s, id);
    Taskbar.AddProperties(f.taskbar, id);
    var tb := Taskbar.Add(f.taskbar, id);
    forall i | 0 <= i < |tb| ensures tb[i].id in f.windows {
      if i < |f.taskbar| { assert tb[i] == f.taskbar[i]; }
    }
    WellFormedWithTaskbar(f, tb);
  }

  /**
   * Close hides the window and removes exactly its button; every other button, the
   * z-order and windowState stay as they were; closing twice is closing once.
   */
  lemma CloseProperties(d: Desk, id: Id)
    requires WellFormed(d) && id in d.windows
    ensures var c := Close(d, id);
      && WellFormed(c)
      && c.windows == d.windows[id := d.windows[id].(display := Hidden)]
      && (forall x :: Taskbar.Has(c.taskbar, x) <==> Taskbar.Has(d.taskbar, x) && x != id)
      && (forall e :: e in c.taskbar <==> e in d.taskbar && e.id != id)
      && (!Taskbar.Has(d.taskbar, id) ==> c.taskbar == d.taskbar)
      && c.taskbar == Taskbar.Without(d.taskbar, id)
      && c == d.(windows := c.windows, taskbar := c.taskbar)
      && Close(c, id) == c
  {
    CloseKeeps(d, id);
    CloseState(d, id);
    CloseTwice(d, id);
    Taskbar.RemoveProperties(d.taskbar, id);
  }

  /** Close hides the window and removes its button, and touches nothing else. */
  lemma CloseState(d: Desk, id: Id)
    requires id in d.windows
    ensures Close(d, id)
         == d.(windows := d.windows[id := d.windows[id].(display := Hidden)],
               taskbar := Taskbar.Remove(d.taskbar, id))
  {
  }

  /** Closing a closed window changes nothing. */
  lemma CloseTwice(d: Desk, id: Id)
    requires Taskbar.NoDuplicates(d.taskbar) && id in d.windows
    ensures Close(Close(d, id), id) == Close(d, id)
  {
    CloseState(d, id);
    var c := Close(d, id);
    CloseState(c, id);
    assert Taskbar.Remove(c.taskbar, id) == c.taskbar by {
      Taskbar.RemoveProperties(d.taskbar, id);
    }
    assert c.windows[id := c.windows[id].(display := Hidden)] == c.windows;
  }

  /** Close keeps the state well formed: the remaining buttons still stand for windows. */
  lemma CloseKeeps(d: Desk, id: Id)
    requires WellFormed(d) && id in d.windows
    ensures WellFormed(Close(d, id))
  {
    var s := SetDisplay(d, id, Hidden);
    SetDisplayKeeps(d, id, Hidden);
    Taskbar.RemoveMembers(s.taskbar, id);
    var tb := Taskbar.Remove(s.taskbar, id);
    forall i | 0 <= i < |tb| ensures tb[i].id in s.windows {
      assert tb[i] in s.taskbar;
    }
    var f := Taskbar.FirstIndex(s.taskbar, id);
    if f.Some? {
      Taskbar.RemoveAtKeepsInvariants(s.taskbar, f.value);
    }
    WellFormedWithTaskbar(s, tb);
  }

  /**
   * Minimize hides the window and keeps every button, clearing only its own
   * button's highlight; z-order and windowState are untouched.
   */
  lemma MinimizeProperties(d: Desk, id: Id)
    requires WellFormed(d) && id in d.windows
    ensures var m := Minimize(d, id);
      && WellFormed(m)
      && m.windows == d.windows[id := d.windows[id].(display := Hidden)]
      && Taskbar.Ids(m.taskbar) == Taskbar.Ids(d.taskbar)
      && (forall i :: 0 <= i < |d.taskbar| ==>
            m.taskbar[i].active == (d.taskbar[i].active && d.taskbar[i].id != id))
      && m == d.(windows := m.windows, taskbar := m.taskbar)
  {
    Taskbar.DeactivateProperties(d.taskbar, id);
    MinimizeKeeps(d, id);
  }

  /** Minimize keeps the state well formed. */
  lemma MinimizeKeeps(d: Desk, id: Id)
    requires WellFormed(d) && id in d.windows
    ensures WellFormed(Minimize(d, id))
  {
    Taskbar.DeactivateProperties(d.taskbar, id);
    var m := Minimize(d, id);
    Taskbar.SameIdsNoDuplicates(d.taskbar, m.taskbar);
    forall i | 0 <= i < |m.taskbar| ensures m.taskbar[i].id in m.windows {
      assert Taskbar.Ids(m.taskbar)[i] == Taskbar.Ids(d.taskbar)[i];
    }
  }

  /** Toggle keeps the state well formed. */
  lemma ToggleKeeps(d: Desk, id: Id)
    requires WellFormed(d) && id in d.windows
    ensures WellFormed(Toggle(d, id))
  {
    if d.windows[id].display == Hidden {
      SetDisplayKeeps(d, id, Block);
      FocusKeeps(SetDisplay(d, id, Block), id);
    } else {
      SetDisplayKeeps(d, id, Hidden);
    }
  }

  /** Toggle on a window whose display is "none" shows it and focuses it. */
  lemma ToggleShows(d: Desk, id: Id)
    requires WellFormed(d) && id in d.windows && d.windows[id].display == Hidden
    ensures var t := Toggle(d, id);
      && WellFormed(t)
      && t.zCounter == d.zCounter + 1
      && t.windows == d.windows[id := d.windows[id].(display := Block, z := Some(t.zCounter))]
      && Taskbar.Ids(t.taskbar) == Taskbar.Ids(d.taskbar)
      && (Taskbar.Has(d.taskbar, id) ==>
            forall i :: 0 <= i < |t.taskbar| ==> (t.taskbar[i].active <==> t.taskbar[i].id == id))
      && (!Taskbar.Has(d.taskbar, id) ==> t.taskbar == d.taskbar)
      && t == d.(windows := t.windows, zCounter := t.zCounter, taskbar := t.taskbar)
  {
    var s := SetDisplay(d, id, Block);
    SetDisplayKeeps(d, id, Block);
    FocusProperties(s, id);
    assert Toggle(d, id) == Focus(s, id);
  }

  /** Toggle on any other window only hides it: no button, flag or z-index changes. */
  lemma ToggleHides(d: Desk, id: Id)
    requires WellFormed(d) && id in d.windows && d.windows[id].display != Hidden
    ensures var t := Toggle(d, id);
      && WellFormed(t)
      && t == d.(windows := d.windows[id := d.windows[id].(display := Hidden)])
  {
    SetDisplayKeeps(d, id, Hidden);
  }

  /**
   * The state m after maximize on id in d: from a normal window the four lengths are
   * saved and the maximized ones written; from a maximized one the saved lengths are
   * written back and the flag is cleared; only this window and its windowState entry
   * change; the window is raised and highlighted as by Focus; nothing else changes.
   */
  predicate MaximizePost(d: Desk, id: Id, m: Desk)
    requires id in d.windows
  {
    && id in m.windows
    && m.zCounter == d.zCounter + 1
    && m.windows == d.windows[id := m.windows[id]]
    && m.windows[id] == WithGeom(d.windows[id], GeomOf(m.windows[id])).(z := Some(m.zCounter))
    && id in m.saved && m.saved == d.saved[id := m.saved[id]]
    && (!IsMaximized(SavedOf(d, id)) ==>
          GeomOf(m.windows[id]) == MaximizedGeom && m.saved[id] == Saved(true, GeomOf(d.windows[id])))
    && (IsMaximized(SavedOf(d, id)) ==>
          GeomOf(m.windows[id]) == d.saved[id].kept && m.saved[id] == d.saved[id].(maximized := false))
    && Taskbar.Ids(m.taskbar) == Taskbar.Ids(d.taskbar)
    && (Taskbar.Has(d.taskbar, id) ==>
          forall i :: 0 <= i < |m.taskbar| ==> (m.taskbar[i].active <==> m.taskbar[i].id == id))
    && (!Taskbar.Has(d.taskbar, id) ==> m.taskbar == d.taskbar)
    && m == d.(windows := m.windows, saved := m.saved, zCounter := m.zCounter, taskbar := m.taskbar)
  }

  /** Maximize keeps the state well formed and raises the window like Focus. */
  lemma MaximizeProperties(d: Desk, id: Id)
    requires WellFormed(d) && id in d.windows
    ensures WellFormed(Maximize(d, id)) && MaximizePost(d, id, Maximize(d, id))
  {
    MaximizeFrame(d, id);
    MaximizeKeeps(d, id);
  }

  /** What Maximize changes and what it keeps, apart from well-formedness. */
  lemma MaximizeFrame(d: Desk, id: Id)
    requires Taskbar.NoDuplicates(d.taskbar) && id in d.windows
    ensures MaximizePost(d, id, Maximize(d, id))
  {
    var (w, s) := ToggleMaximize(d.windows[id], SavedOf(d, id));
    var z := d.zCounter + 1;
    Taskbar.HighlightMarksOnly(d.taskbar, id);
    assert Maximize(d, id)
        == d.(windows := d.windows[id := w.(z := Some(z))], saved := d.saved[id := s],
              zCounter := z, taskbar := Taskbar.Highlight(d.taskbar, id));
  }

  /** Maximize keeps the state well formed. */
  lemma MaximizeKeeps(d: Desk, id: Id)
    requires WellFormed(d) && id in d.windows
    ensures WellFormed(Maximize(d, id))
  {
    var (w, s) := ToggleMaximize(d.windows[id], SavedOf(d, id));
    var u := d.(windows := d.windows[id := w], saved := d.saved[id := s]);
    assert WellFormed(u);
    FocusKeeps(u, id);
  }

  /**
   * Maximize twice on a window that is not maximized gives back exactly the lengths
   * it had, leaves it not maximized, and advances z twice.
   */
  lemma MaximizeTwiceRestores(d: Desk, id: Id)
    requires WellFormed(d) && id in d.windows && !IsMaximized(SavedOf(d, id))
    ensures var m := Maximize(Maximize(d, id), id);
      && m.windows[id] == d.windows[id].(z := Some(d.zCounter + 2))
      && GeomOf(m.windows[id]) == GeomOf(d.windows[id])
      && !m.saved[id].maximized
      && m.zCounter == d.zCounter + 2
  {
    MaximizeProperties(d, id);
    var m1 := Maximize(d, id);
    MaximizeProperties(m1, id);
  }

  // ------------------------------------------------------------------ drag

  /** A press records pointer minus position, raises the window and registers one more listener. */
  lemma DragStartProperties(d: Desk, id: Id, cx: int, cy: int, vw: int, vh: int)
    requires WellFormed(d) && id in d.windows
    ensures var g := DragStart(d, id, cx, cy, vw, vh);
      && WellFormed(g)
      && g.offsetX + OffsetLeft(d.windows[id], vw, vh) == cx
      && g.offsetY + OffsetTop(d.windows[id], vw, vh) == cy
      && g.listeners == d.listeners + [id]
      && g.zCounter == d.zCounter + 1
      && g.windows == d.windows[id := d.windows[id].(z := Some(g.zCounter))]
      && Taskbar.Ids(g.taskbar) == Taskbar.Ids(d.taskbar)
      && (Taskbar.Has(d.taskbar, id) ==>
            forall i :: 0 <= i < |g.taskbar| ==> (g.taskbar[i].active <==> g.taskbar[i].id == id))
      && (!Taskbar.Has(d.taskbar, id) ==> g.taskbar == d.taskbar)
      && g == d.(windows := g.windows, zCounter := g.zCounter, taskbar := g.taskbar,
                 offsetX := g.offsetX, offsetY := g.offsetY, listeners := g.listeners)
  {
    FocusProperties(d, id);
  }

  /** A press keeps the state well formed. */
  lemma DragStartKeeps(d: Desk, id: Id, cx: int, cy: int, vw: int, vh: int)
    requires WellFormed(d) && id in d.windows
    ensures WellFormed(DragStart(d, id, cx, cy, vw, vh))
  {
    FocusKeeps(d, id);
  }

  /**
   * A mousemove moves exactly the dragged windows, each to pointer minus offset
   * clamped into the viewport: inside the range when the window fits, at the upper
   * bound when it does not.
   */
  lemma DragMoveProperties(d: Desk, cx: int, cy: int, vw: int, vh: int)
    requires WellFormed(d)
    ensures var m := DragMove(d, cx, cy, vw, vh);
      && WellFormed(m)
      && m.windows.Keys == d.windows.Keys
      && (forall k :: k in d.windows && k !in d.listeners ==> m.windows[k] == d.windows[k])
      && (forall k :: k in d.windows && k in d.listeners ==>
            var w := d.windows[k];
            && m.windows[k] == w.(left := Px(ClampAxis(cx - d.offsetX, MaxX(w, vw, vh))),
                                  top := Px(ClampAxis(cy - d.offsetY, MaxY(w, vw, vh))))
            && (MaxX(w, vw, vh) >= 0 && MaxY(w, vw, vh) >= 0 ==> InBounds(m.windows[k], vw, vh))
            && (MaxX(w, vw, vh) < 0 ==> OffsetLeft(m.windows[k], vw, vh) == MaxX(w, vw, vh)))
      && m == d.(windows := m.windows)
  {
    var m := DragMove(d, cx, cy, vw, vh);
    forall k | k in d.windows && k in d.listeners
      ensures m.windows[k] == d.windows[k].(left := Px(ClampAxis(cx - d.offsetX, MaxX(d.windows[k], vw, vh))),
                                            top := Px(ClampAxis(cy - d.offsetY, MaxY(d.windows[k], vw, vh))))
    {
      MoveToLands(d.windows[k], cx - d.offsetX, cy - d.offsetY, vw, vh);
    }
  }

  /** A mousemove keeps the state well formed: it changes positions only. */
  lemma DragMoveKeeps(d: Desk, cx: int, cy: int, vw: int, vh: int)
    requires WellFormed(d)
    ensures WellFormed(DragMove(d, cx, cy, vw, vh))
  {
    var m := DragMove(d, cx, cy, vw, vh);
    assert forall k :: k in d.windows ==> m.windows[k].z == d.windows[k].z;
  }

  /**
   * Pressing on a window that lies inside the viewport and moving back to the press
   * point puts it exactly where it was.
   */
  lemma DragBackToStart(d: Desk, id: Id, cx: int, cy: int, vw: int, vh: int)
    requires WellFormed(d) && id in d.windows && d.listeners == []
    requires InBounds(d.windows[id], vw, vh)
    ensures var m := DragMove(DragStart(d, id, cx, cy, vw, vh), cx, cy, vw, vh);
      && OffsetLeft(m.windows[id], vw, vh) == OffsetLeft(d.windows[id], vw, vh)
      && OffsetTop(m.windows[id], vw, vh) == OffsetTop(d.windows[id], vw, vh)
      && m.listeners == [id]
  {
    DragStartProperties(d, id, cx, cy, vw, vh);
    var g := DragStart(d, id, cx, cy, vw, vh);
    DragMoveProperties(g, cx, cy, vw, vh);
    assert id in g.listeners;
  }

  /** A mouseup ends every gesture; later moves change nothing. */
  lemma DragEndProperties(d: Desk, cx: int, cy: int, vw: int, vh: int)
    requires WellFormed(d)
    ensures WellFormed(DragEnd(d))
    ensures DragMove(DragEnd(d), cx, cy, vw, vh) == DragEnd(d)
    ensures DragEnd(d) == d.(listeners := [])
  {
  }

  // ------------------------------------------------------------------ boot and terminal

  /** Enter starts the desktop once: after that no key changes anything. */
  lemma KeyDownStartsOnce(d: Desk, key: string, later: string)
    ensures var k := KeyDown(d, key);
      && (key == "Enter" && !d.started ==>
            k == d.(started := true, bootShown := false, desktopShown := true, aboutPending := true))
      && (key != "Enter" || d.started ==> k == d)
      && (key == "Enter" ==> KeyDown(k, later) == k)
      && (WellFormed(d) ==> WellFormed(k))
  {
  }

  /** The start-up timer opens "about" like a click would, once. */
  lemma AboutTimerProperties(d: Desk)
    requires WellFormed(d) && d.aboutPending && "about" in d.windows
    ensures var a := AboutTimer(d);
      && WellFormed(a) && !a.aboutPending
      && a.windows["about"].display == Block && Taskbar.Has(a.taskbar, "about")
      && a.zCounter == d.zCounter + 1 && a.windows["about"].z == Some(a.zCounter)
      && a.windows == d.windows["about" := d.windows["about"].(display := Block, z := Some(a.zCounter))]
      && a == d.(windows := a.windows, zCounter := a.zCounter, taskbar := a.taskbar, aboutPending := false)
    ensures OpenPost(d.(aboutPending := false), "about", AboutTimer(d))
  {
    OpenProperties(d.(aboutPending := false), "about");
  }

  /**
   * A key other than Enter does nothing. Enter empties the input, answers the trimmed
   * command, and on "exit" closes the terminal window and removes its button; any
   * other command leaves the windows and the taskbar as they were.
   */
  lemma TerminalCommandProperties(d: Desk, key: string)
    requires WellFormed(d)
    requires key == "Enter" && Terminal.Trim(d.input) == "exit" ==> "terminal" in d.windows
    ensures var t := TerminalCommand(d, key);
      && WellFormed(t)
      && (key != "Enter" ==> t == d)
      && (key == "Enter" ==>
            var cmd := Terminal.Trim(d.input);
            && t.input == ""
            && t.output == Terminal.Respond(d.output, cmd)
            && (cmd == "clear" ==> t.output == [])
            && (cmd == "exit" ==>
                  && t.windows == d.windows["terminal" := d.windows["terminal"].(display := Hidden)]
                  && t.taskbar == Taskbar.Without(d.taskbar, "terminal")
                  && !Taskbar.Has(t.taskbar, "terminal"))
            && (cmd != "exit" ==> t.windows == d.windows && t.taskbar == d.taskbar)
            && t == d.(windows := t.windows, taskbar := t.taskbar, output := t.output, input := ""))
  {
    TerminalCommandKeeps(d, key);
    if key == "Enter" {
      var cmd := Terminal.Trim(d.input);
      var a := d.(output := Terminal.Answer(d.output + [Terminal.Echo(cmd)], cmd));
      if cmd == "exit" {
        CloseState(a, "terminal");
        Taskbar.RemoveKeepsOrder(d.taskbar, "terminal");
        assert TerminalCommand(d, key) == Close(a, "terminal").(input := "");
      } else {
        assert TerminalCommand(d, key) == a.(input := "");
      }
    }
  }

  /** The terminal's output and input play no part in well-formedness. */
  lemma WellFormedWithTerminal(d: Desk, output: seq<Terminal.Line>, input: string)
    requires WellFormed(d)
    ensures WellFormed(d.(output := output, input := input))
  {
  }

  /** A key press in the terminal keeps the state well formed. */
  lemma TerminalCommandKeeps(d: Desk, key: string)
    requires WellFormed(d)
    requires key == "Enter" && Terminal.Trim(d.input) == "exit" ==> "terminal" in d.windows
    ensures WellFormed(TerminalCommand(d, key))
  {
    if key == "Enter" {
      var cmd := Terminal.Trim(d.input);
      var a := d.(output := Terminal.Answer(d.output + [Terminal.Echo(cmd)], cmd));
      WellFormedWithTerminal(d, a.output, d.input);
      var r := if cmd == "exit" then Close(a, "terminal") else a;
      if cmd == "exit" {
        CloseKeeps(a, "terminal");
      }
      assert TerminalCommand(d, key) == r.(input := "");
      WellFormedWithTerminal(r, r.output, "");
    }
  }

  /** Typing "  exit " and pressing Enter closes the terminal, leaving its echo line as the last output. */
  lemma ExitWithSpaces(d: Desk)
    requires WellFormed(d) && "terminal" in d.windows && d.input == "  exit "
    ensures var t := TerminalCommand(d, "Enter");
      && t.output == d.output + [Terminal.Echo("exit")]
      && t.windows["terminal"].display == Hidden
      && !Taskbar.Has(t.taskbar, "terminal")
  {
    Terminal.TrimPaddedExit();
    var a := d.(output := Terminal.Answer(d.output + [Terminal.Echo("exit")], "exit"));
    CloseState(a, "terminal");
    Taskbar.RemoveHas(d.taskbar, "terminal", "terminal");
    assert TerminalCommand(d, "Enter") == Close(a, "terminal").(input := "");
  }

  // ------------------------------------------------------------------ scenarios

  /** After Open the windows with a button are those that had one, and the opened one. */
  lemma OpenButtons(d: Desk, id: Id, x: Id)
    requires WellFormed(d) && id in d.windows
    ensures Taskbar.Has(Open(d, id).taskbar, x) <==> Taskbar.Has(d.taskbar, x) || x == id
  {
    var f := Focus(SetDisplay(d, id, Block), id);
    SetDisplayKeeps(d, id, Block);
    FocusProperties(SetDisplay(d, id, Block), id);
    Taskbar.SameIdsHas(d.taskbar, f.taskbar, x);
    Taskbar.AddProperties(f.taskbar, id);
  }

  /** Open a, open b, focus a: a's button is the active one and a is above b. */
  lemma OpenOpenFocus(d: Desk, a: Id, b: Id)
    requires WellFormed(d) && a in d.windows && b in d.windows && a != b
    ensures var f := Focus(Open(Open(d, a), b), a);
      && f.windows[a].z.value > f.windows[b].z.value
      && Taskbar.Has(f.taskbar, a) && Taskbar.Has(f.taskbar, b)
      && forall i :: 0 <= i < |f.taskbar| ==> (f.taskbar[i].active <==> f.taskbar[i].id == a)
  {
    OpenProperties(d, a);
    var o1 := Open(d, a);
    OpenButtons(d, a, a);
    OpenProperties(o1, b);
    var o2 := Open(o1, b);
    OpenButtons(o1, b, a);
    OpenButtons(o1, b, b);
    FocusProperties(o2, a);
    var f := Focus(o2, a);
    Taskbar.SameIdsHas(o2.taskbar, f.taskbar, a);
    Taskbar.SameIdsHas(o2.taskbar, f.taskbar, b);
  }

  /** A 300 x 200 window at (-50, 10) in a 1024 x 768 viewport is clamped to (0, 10). */
  lemma ClampExample(sheet: Box)
    ensures var w := Pristine(sheet).(left := Px(-50), top := Px(10), width := Px(300), height := Px(200));
      KeptInBounds(w, 1024, 768) == w.(left := Px(0))
  {
  }
}
