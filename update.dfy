/** update.rs: the routing of a key event onto the operations of `App`. */
module Update {
  import opened Wrappers
  import opened Keys
  import opened Session
  import App

  /** Left (update.rs:22-32): in a search, clears the tag highlight on the
      tag pane and is typed into the other panes; clears the bookmark
      highlight while scrolling; nothing in the creation form. */
  function LeftKey(s: AppState, key: KeyEvent, w: World): Outcome {
    match s.mode
    case Search(p) =>
      if p.activeWindow == Tags then Done(s.(tagsItems := Unselect(s.tagsItems)))
      else AddChar(s, key, w)
    case Scrolling => Done(s.(bookmarksItems := Unselect(s.bookmarksItems)))
    case Create(_) => Done(s)
  }

  /** Down (update.rs:33-45): the application's tag list on the search tag
      pane, the bookmark list while scrolling, the form's own tag list on
      the creation tag pane. */
  function DownKey(s: AppState): AppState {
    match s.mode
    case Search(p) => if p.activeWindow == Tags then s.(tagsItems := Next(s.tagsItems)) else s
    case Scrolling => s.(bookmarksItems := Next(s.bookmarksItems))
    case Create(p) =>
      if p.activeWindow == Tags then s.(mode := Create(p.(tagsItems := Next(p.tagsItems)))) else s
  }

  /** Up (update.rs:46-58), the same lists as Down. */
  function UpKey(s: AppState): AppState {
    match s.mode
    case Search(p) => if p.activeWindow == Tags then s.(tagsItems := Previous(s.tagsItems)) else s
    case Scrolling => s.(bookmarksItems := Previous(s.bookmarksItems))
    case Create(p) =>
      if p.activeWindow == Tags then s.(mode := Create(p.(tagsItems := Previous(p.tagsItems)))) else s
  }

  /** Ctrl+c: the modifiers must be exactly CONTROL. */
  predicate IsCtrlC(key: KeyEvent) {
    key.code == Char('c') && key.modifiers == CONTROL
  }

  /** The keys `update` routes somewhere other than `add_char`. */
  predicate IsCommandKey(key: KeyEvent) {
    key.code in {Esc, F(1), F(3), F(5), F(12), Left, Down, Up, Enter, Delete, Char('`'), Tab} || IsCtrlC(key)
  }

  /** `update` (update.rs:6-66). */
  function Dispatch(s: AppState, key: KeyEvent, w: World): Outcome
    requires Inv(s)
  {
    if key.code == Esc || IsCtrlC(key) then Done(Quit(s))
    else if key.code == F(1) then Done(ToggleHelp(s))
    else if key.code == F(3) then Done(ToggleCreationMode(s))
    else if key.code == F(5) then SyncBmarks(s, w)
    else if key.code == F(12) then Done(Reset(s))
    else if key.code == Left then LeftKey(s, key, w)
    else if key.code == Down then Done(DownKey(s))
    else if key.code == Up then Done(UpKey(s))
    else if key.code == Enter then ResolveEnter(s, w)
    else if key.code == Delete then OnDelete(s)
    else if key.code == Char('`') then Done(ToggleMode(s))
    else if key.code == Tab then Done(ChangeActiveWindow(s))
    else AddChar(s, key, w)
  }

  /** The Left branch of `update`. */
  method OnLeft(app: App.App, key: KeyEvent, w: World) returns (r: Status)
    requires app.Valid()
    modifies app, app.tagsItems, app.bookmarksItems
    ensures app.Valid() && app.Repr() == old(app.Repr())
    ensures Outcome(r, app.State(), None) == LeftKey(old(app.State()), key, w)
  {
    r := Ok;
    if app.mode.Search? {
      if app.mode.searching.activeWindow == Tags {
        app.tagsItems.Unselect();
      } else {
        r := app.AddChar(key, w);
      }
    } else if app.mode.Scrolling? {
      app.bookmarksItems.Unselect();
    }
  }

  /** The Down branch of `update`. */
  method OnDown(app: App.App)
    requires app.Valid()
    modifies app.Repr() - {app}
    ensures app.Valid() && app.Repr() == old(app.Repr())
    ensures app.State() == DownKey(old(app.State()))
  {
    if app.mode.Search? {
      if app.mode.searching.activeWindow == Tags {
        app.tagsItems.Next();
      }
    } else if app.mode.Scrolling? {
      app.bookmarksItems.Next();
    } else if app.mode.creation.activeWindow == Tags {
      app.mode.creation.tagsItems.Next();
    }
  }

  /** The Up branch of `update`. */
  method OnUp(app: App.App)
    requires app.Valid()
    modifies app.Repr() - {app}
    ensures app.Valid() && app.Repr() == old(app.Repr())
    ensures app.State() == UpKey(old(app.State()))
  {
    if app.mode.Search? {
      if app.mode.searching.activeWindow == Tags {
        app.tagsItems.Previous();
      }
    } else if app.mode.Scrolling? {
      app.bookmarksItems.Previous();
    } else if app.mode.creation.activeWindow == Tags {
      app.mode.creation.tagsItems.Previous();
    }
  }

  /** `update` on the application object. */
  method Update(app: App.App, key: KeyEvent, w: World) returns (r: Status, launched: Option<string>)
    requires app.Valid()
    modifies app.Repr()
    ensures app.Valid() && fresh(app.Repr() - old(app.Repr()))
    ensures Outcome(r, app.State(), launched) == Dispatch(old(app.State()), key, w)
  {
    r, launched := Ok, None;
    if key.code == Esc || IsCtrlC(key) {
      app.Quit();
    } else if key.code == F(1) {
      app.ToggleHelp();
    } else if key.code == F(3) {
      app.ToggleCreationMode();
    } else if key.code == F(5) {
      r := app.SyncBmarks(w);
    } else if key.code == F(12) {
      r := app.Reset();
    } else if key.code == Left {
      r := OnLeft(app, key, w);
    } else if key.code == Down {
      OnDown(app);
    } else if key.code == Up {
      OnUp(app);
    } else if key.code == Enter {
      r, launched := app.ResolveEnter(w);
    } else if key.code == Delete {
      r := app.OnDelete();
    } else if key.code == Char('`') {
      app.ToggleMode();
    } else if key.code == Tab {
      app.ChangeActiveWindow();
    } else {
      r := app.AddChar(key, w);
    }
  }

  // ---------------------------------------------------------------------
  // What the routing promises

  /** Esc and Ctrl+c quit, and nothing else sets the quit flag. */
  lemma QuitOnlyByQuitKeys(s: AppState, key: KeyEvent, w: World)
    requires Inv(s)
    ensures Dispatch(s, key, w).next.shouldQuit <==> s.shouldQuit || key.code == Esc || IsCtrlC(key)
    ensures key.code == Esc || IsCtrlC(key) ==> Dispatch(s, key, w) == Done(s.(shouldQuit := true))
  {
    var o := Dispatch(s, key, w);
    if key.code == Esc || IsCtrlC(key) {
      assert o == Done(Quit(s));
    } else if key.code in {F(1), F(3), F(12), Down, Up, Char('`'), Tab} {
      assert o.next.shouldQuit == s.shouldQuit;
    } else if key.code == F(5) {
      assert o == SyncBmarks(s, w);
    } else if key.code == Left {
      assert o == LeftKey(s, key, w);
    } else if key.code == Enter {
      assert o == ResolveEnter(s, w);
    } else if key.code == Delete {
      assert o == OnDelete(s);
    } else {
      assert o == AddChar(s, key, w);
    }
  }

  /** A `c` with any modifiers other than exactly CONTROL (none, or Ctrl
      with Shift) is typed. */
  lemma PlainCIsTyped(s: AppState, key: KeyEvent, w: World)
    requires Inv(s) && key.code == Char('c') && key.modifiers != CONTROL
    ensures Dispatch(s, key, w) == AddChar(s, key, w)
  {
    assert !IsCommandKey(key);
    OtherKeysAreTyped(s, key, w);
  }

  /** Every key without a command of its own goes to `add_char`. */
  lemma OtherKeysAreTyped(s: AppState, key: KeyEvent, w: World)
    requires Inv(s) && !IsCommandKey(key)
    ensures Dispatch(s, key, w) == AddChar(s, key, w)
  {
  }

  /** F1 flips only the help flag, and twice is no change at all. */
  lemma HelpTwice(s: AppState, key: KeyEvent, w: World)
    requires Inv(s) && key.code == F(1)
    ensures Dispatch(s, key, w) == Done(s.(renderHelp := !s.renderHelp))
    ensures Dispatch(Dispatch(s, key, w).next, key, w) == Done(s)
  {
  }

  /** F3, F5 and F12 run the creation toggle, the sync and the reset. */
  lemma FunctionKeys(s: AppState, key: KeyEvent, w: World)
    requires Inv(s)
    ensures key.code == F(3) ==> Dispatch(s, key, w) == Done(ToggleCreationMode(s))
    ensures key.code == F(5) ==> Dispatch(s, key, w) == SyncBmarks(s, w)
    ensures key.code == F(12) ==> Dispatch(s, key, w) == Done(Reset(s))
  {
  }

  /** Left clears the tag highlight on the search tag pane, is typed on the
      other search panes, clears the bookmark highlight while scrolling,
      and does nothing in the creation form. */
  lemma LeftKeyRoutes(s: AppState, key: KeyEvent, w: World)
    requires Inv(s) && key.code == Left
    ensures var o := Dispatch(s, key, w);
            (s.mode.Search? && s.mode.searching.activeWindow == Tags ==>
               o == Done(s.(tagsItems := s.tagsItems.(selected := None)))) &&
            (s.mode.Search? && s.mode.searching.activeWindow != Tags ==> o == AddChar(s, key, w)) &&
            (s.mode.Scrolling? ==> o == Done(s.(bookmarksItems := s.bookmarksItems.(selected := None)))) &&
            (s.mode.Create? ==> o == Done(s))
  {
  }

  /** In the creation form, Down and Up move only the form's own tag list,
      and only on the tag pane; the application's tag list stays. */
  lemma DownUpInCreate(s: AppState, down: KeyEvent, up: KeyEvent, w: World)
    requires Inv(s) && s.mode.Create? && down.code == Down && up.code == Up
    ensures var p := s.mode.creation;
            var d, u := Dispatch(s, down, w), Dispatch(s, up, w);
            d.status == Ok && u.status == Ok &&
            d.next.tagsItems == s.tagsItems && u.next.tagsItems == s.tagsItems &&
            (p.activeWindow != Tags ==> d.next == s && u.next == s) &&
            (p.activeWindow == Tags ==>
               d.next == s.(mode := Create(p.(tagsItems := Next(p.tagsItems)))) &&
               u.next == s.(mode := Create(p.(tagsItems := Previous(p.tagsItems)))))
  {
  }

  /** Down then Up with a highlight in place comes back to the same state,
      whichever list the mode routes them to. */
  lemma DownThenUp(s: AppState, down: KeyEvent, up: KeyEvent, w: World)
    requires Inv(s) && down.code == Down && up.code == Up
    requires s.mode.Scrolling? ==> s.bookmarksItems.selected.Some?
    requires s.mode.Search? && s.mode.searching.activeWindow == Tags ==> s.tagsItems.selected.Some?
    requires s.mode.Create? && s.mode.creation.activeWindow == Tags ==> s.mode.creation.tagsItems.selected.Some?
    ensures Dispatch(s, down, w).status == Ok
    ensures Inv(Dispatch(s, down, w).next)
    ensures Dispatch(Dispatch(s, down, w).next, up, w) == Done(s)
  {
    var s1 := DownKey(s);
    assert Dispatch(s, down, w) == Done(s1);
    CursorMovesKeepInv(s);
    assert Dispatch(s1, up, w) == Done(UpKey(s1));
    match s.mode
    case Scrolling => NextPreviousInverse(s.bookmarksItems);
    case Search(p) => if p.activeWindow == Tags { NextPreviousInverse(s.tagsItems); }
    case Create(p) => if p.activeWindow == Tags { NextPreviousInverse(p.tagsItems); }
  }

  /** Enter, Delete, backquote and Tab run their operations, errors
      included. */
  lemma CommandKeys(s: AppState, key: KeyEvent, w: World)
    requires Inv(s)
    ensures key.code == Enter ==> Dispatch(s, key, w) == ResolveEnter(s, w)
    ensures key.code == Delete ==> Dispatch(s, key, w) == OnDelete(s)
    ensures key.code == Char('`') ==> Dispatch(s, key, w) == Done(ToggleMode(s))
    ensures key.code == Tab ==> Dispatch(s, key, w) == Done(ChangeActiveWindow(s))
  {
  }

  lemma CursorMovesKeepInv(s: AppState)
    requires Inv(s)
    ensures Inv(DownKey(s)) && Inv(UpKey(s))
  {
  }

  lemma LeftKeyKeepsInv(s: AppState, key: KeyEvent, w: World)
    requires Inv(s)
    ensures Inv(LeftKey(s, key, w).next)
  {
    if s.mode.Search? && s.mode.searching.activeWindow != Tags {
      AddCharKeepsInv(s, key, w);
    }
  }

  /** Whatever key arrives, the invariant holds after it: highlights stay
      inside their lists and the database stays consistent. */
  lemma DispatchKeepsInv(s: AppState, key: KeyEvent, w: World)
    requires Inv(s)
    ensures Inv(Dispatch(s, key, w).next)
  {
    var o := Dispatch(s, key, w);
    if key.code == Esc || IsCtrlC(key) {
      assert o == Done(Quit(s));
    } else if key.code == F(1) {
      assert o == Done(ToggleHelp(s));
    } else if key.code == F(3) {
      assert o == Done(ToggleCreationMode(s));
    } else if key.code == F(5) {
      assert o == SyncBmarks(s, w);
      SyncBmarksStores(s, w);
    } else if key.code == F(12) {
      assert o == Done(Reset(s));
    } else if key.code == Left {
      assert o == LeftKey(s, key, w);
      LeftKeyKeepsInv(s, key, w);
    } else if key.code == Down {
      assert o == Done(DownKey(s));
      CursorMovesKeepInv(s);
    } else if key.code == Up {
      assert o == Done(UpKey(s));
      CursorMovesKeepInv(s);
    } else if key.code == Enter {
      assert o == ResolveEnter(s, w);
      ResolveEnterKeepsInv(s, w);
    } else if key.code == Delete {
      assert o == OnDelete(s);
      OnDeleteRemoves(s);
    } else if key.code == Char('`') {
      assert o == Done(ToggleMode(s));
    } else if key.code == Tab {
      assert o == Done(ChangeActiveWindow(s));
    } else {
      assert o == AddChar(s, key, w);
      AddCharKeepsInv(s, key, w);
    }
  }
}
