/** app.rs: `StatefulList` and `App` as objects. Every method is proved to
    move the object state along the functions of `Session`, where what the
    operations promise is proved. */
module App {
  import opened Wrappers
  import opened Keys
  import opened Url
  import opened Tags
  import opened Bookmarks
  import Store
  import Transactions
  import BookmarkSearch
  import opened Sqlite
  import Repos
  import opened Session

  /** `StatefulList<T>` (app.rs:338-390): items and a `ListState`. */
  class StatefulList<T> {
    var items: seq<T>
    var selected: Option<nat>

    function View(): Cursor<T>
      reads this
    {
      Cursor(items, selected)
    }

    /** `StatefulList::with_items`. */
    constructor WithItems(items0: seq<T>)
      ensures View() == Session.WithItems(items0)
    {
      items := items0;
      selected := None;
    }

    /** `Clone for StatefulList<Tag>`: the same items and selection. */
    constructor Copy(other: StatefulList<T>)
      ensures View() == other.View()
    {
      items := other.items;
      selected := other.selected;
    }

    /** `StatefulList::next`. */
    method Next()
      modifies this
      ensures View() == Session.Next(old(View()))
    {
      if |items| == 0 {
        return;
      }
      var i: nat;
      match selected {
        case Some(j) => i := if j >= |items| - 1 then 0 else j + 1;
        case None => i := 0;
      }
      selected := Some(i);
    }

    /** `StatefulList::previous`. */
    method Previous()
      modifies this
      ensures View() == Session.Previous(old(View()))
    {
      if |items| == 0 {
        return;
      }
      var i: nat;
      match selected {
        case Some(j) => i := if j == 0 then |items| - 1 else j - 1;
        case None => i := 0;
      }
      selected := Some(i);
    }

    /** `StatefulList::unselect`. */
    method Unselect()
      modifies this
      ensures View() == Session.Unselect(old(View()))
    {
      selected := None;
    }
  }

  /** `App::refresh_state` (app.rs:190-205): the bookmarks under `filter`
      and all tags, each with a new unselected list. */
  method RefreshState(repo: Repo, filter: seq<Tag>)
    returns (bs: seq<Bookmark>, bItems: StatefulList<Bookmark>, ts: seq<Tag>, tItems: StatefulList<Tag>)
    requires repo.Valid()
    ensures bs == Store.QueryBookmarks(repo.db, filter) && ts == repo.db.tags
    ensures BookmarkSearch.UniqueIds(bs)
    ensures fresh(bItems) && fresh(tItems) && bItems as object != tItems as object
    ensures bItems.View() == Session.WithItems(bs) && tItems.View() == Session.WithItems(ts)
  {
    bs := Repos.FetchAll(repo, filter);
    Session.QueryUnique(repo.db, filter);
    bItems := new StatefulList.WithItems(bs);
    ts := Repos.TagFetchAll(repo);
    tItems := new StatefulList.WithItems(ts);
  }

  /** `App` (app.rs:17-27). */
  class App {
    var bookmarks: seq<Bookmark>
    var bookmarksItems: StatefulList<Bookmark>
    var tags: seq<Tag>
    var tagsItems: StatefulList<Tag>
    var mode: Mode<StatefulList<Tag>>
    var tagsFilter: seq<Tag>
    var renderHelp: bool
    var shouldQuit: bool
    const repo: Repo

    /** The tag list of the creation form, when there is one. */
    function FormList(): set<object>
      reads this
    {
      if mode.Create? then {mode.creation.tagsItems} else {}
    }

    function Repr(): set<object>
      reads this
    {
      {this, bookmarksItems, tagsItems, repo} + FormList()
    }

    function ModeView(): Mode<Cursor<Tag>>
      reads this, FormList()
    {
      match mode
      case Search(p) => Search(p)
      case Create(p) => Create(CreationParams(p.activeWindow, p.title, p.link, p.tagsItems.View(), p.selectedTags))
      case Scrolling => Scrolling
    }

    /** The state of the application as a value. */
    function State(): AppState
      reads Repr()
    {
      AppState(bookmarks, bookmarksItems.View(), tags, tagsItems.View(), ModeView(),
               tagsFilter, renderHelp, shouldQuit, repo.db)
    }

    /** The three lists are three objects, and the state keeps `Inv`. */
    predicate Valid()
      reads Repr()
    {
      bookmarksItems as object != tagsItems as object &&
      (mode.Create? ==> mode.creation.tagsItems != tagsItems &&
                        mode.creation.tagsItems as object != bookmarksItems as object) &&
      repo.Valid() && Inv(State())
    }

    /** `App::new` on an open repository. */
    constructor (repo0: Repo)
      requires repo0.Valid()
      ensures Valid() && repo == repo0 && State() == Initial(repo0.db)
      ensures fresh(Repr() - {repo0})
    {
      var bs, bItems, ts, tItems := RefreshState(repo0, []);
      bookmarks, bookmarksItems, tags, tagsItems := bs, bItems, ts, tItems;
      mode := Scrolling;
      tagsFilter := [];
      renderHelp, shouldQuit := false, false;
      repo := repo0;
    }

    /** `App::is_should_quit`. */
    function IsShouldQuit(): (b: bool)
      reads this
      ensures b <==> shouldQuit
    {
      shouldQuit
    }

    /** `App::quit`. */
    method Quit()
      requires Valid()
      modifies this
      ensures Valid() && Repr() == old(Repr())
      ensures State() == Session.Quit(old(State()))
    {
      shouldQuit := true;
    }

    /** `App::toggle_help_render`. */
    method ToggleHelp()
      requires Valid()
      modifies this
      ensures Valid() && Repr() == old(Repr())
      ensures State() == Session.ToggleHelp(old(State()))
    {
      renderHelp := !renderHelp;
    }

    /** `App::toggle_mode`. */
    method ToggleMode()
      requires Valid()
      modifies this
      ensures Valid() && fresh(Repr() - old(Repr()))
      ensures State() == Session.ToggleMode(old(State()))
    {
      if mode.Search? {
        mode := Scrolling;
      } else if mode.Create? {
        var p := mode.creation;
        var copy := new StatefulList.Copy(p.tagsItems);
        mode := Create(p.(tagsItems := copy));
      } else {
        mode := Search(DefaultSearching);
      }
    }

    /** `App::toggle_creation_mode`. */
    method ToggleCreationMode()
      requires Valid()
      modifies this
      ensures Valid() && fresh(Repr() - old(Repr()))
      ensures State() == Session.ToggleCreationMode(old(State()))
    {
      if mode.Create? {
        mode := Scrolling;
      } else {
        var list := new StatefulList.WithItems(tags);
        mode := Create(CreationParams(Title, EmptyInput, EmptyInput, list, []));
      }
    }

    /** `App::reset`. */
    method Reset() returns (r: Status)
      requires Valid()
      modifies this
      ensures Valid() && fresh(Repr() - old(Repr()))
      ensures r == Ok && State() == Session.Reset(old(State()))
    {
      var bs, bItems, ts, tItems := RefreshState(repo, []);
      bookmarksItems := bItems;
      tagsItems := tItems;
      tagsFilter := [];
      return Ok;
    }

    /** `App::change_active_window`. */
    method ChangeActiveWindow()
      requires Valid()
      modifies this
      ensures Valid() && Repr() == old(Repr())
      ensures State() == Session.ChangeActiveWindow(old(State()))
    {
      if mode.Search? {
        var p := mode.searching;
        mode := Search(p.(activeWindow := NextWindow(p.activeWindow)));
      } else if mode.Create? {
        var p := mode.creation;
        mode := Create(p.(activeWindow := NextWindow(p.activeWindow)));
      }
    }

    /** `App::sync_bmarks`; `w.remote` is what `tagpacker::get_links`
        answered. */
    method SyncBmarks(w: World) returns (r: Status)
      requires Valid()
      modifies this, repo
      ensures Valid() && fresh(Repr() - old(Repr()))
      ensures Outcome(r, State(), None) == Session.SyncBmarks(old(State()), w)
    {
      ghost var s0 := State();
      if w.remote.Failure? {
        return Failure(w.remote.error);
      }
      var created := Repos.BatchCreate(repo, w.remote.value, w.faults);
      if created.Failure? {
        return Failure(created.error);
      }
      ghost var v := Transactions.BatchCreate(s0.db, w.remote.value, w.faults).value;
      assert repo.db == v.0 && created.value == v.1 && State() == s0.(db := v.0);
      Session.BatchUnique(s0.db, w.remote.value, w.faults);
      ShowBatch(created.value);
      return Ok;
    }

    /** After a batch is stored: the list shows just the batch's bookmarks,
        and the tags are reloaded. */
    method ShowBatch(bs: seq<Bookmark>)
      requires Valid() && BookmarkSearch.UniqueIds(bs)
      modifies this
      ensures Valid() && fresh(Repr() - old(Repr()))
      ensures State() == old(State()).(bookmarks := bs, bookmarksItems := WithItems(bs),
                                       tags := repo.db.tags, tagsItems := WithItems(repo.db.tags))
    {
      ghost var m0 := ModeView();
      var bItems := new StatefulList.WithItems(bs);
      var ts := Repos.TagFetchAll(repo);
      var tItems := new StatefulList.WithItems(ts);
      bookmarks, bookmarksItems, tags, tagsItems := bs, bItems, ts, tItems;
      assert ModeView() == m0;
    }

    /** `App::resolve_enter`; `launched` is the URL handed to the browser. */
    method ResolveEnter(w: World) returns (r: Status, launched: Option<string>)
      requires Valid()
      modifies Repr()
      ensures Valid() && fresh(Repr() - old(Repr()))
      ensures Outcome(r, State(), launched) == Session.ResolveEnter(old(State()), w)
    {
      if mode.Search? {
        r := EnterSearch(w);
        launched := None;
      } else if mode.Create? && mode.creation.activeWindow == Tags {
        r := EnterCreateTags(w);
        launched := None;
      } else if mode.Create? {
        r := EnterCreateStore(w);
        launched := None;
      } else {
        r, launched := EnterScrolling(w);
      }
    }

    /** Enter in Search mode: the selected tag joins the filter. */
    method EnterSearch(w: World) returns (r: Status)
      requires Valid() && mode.Search?
      modifies this
      ensures Valid() && fresh(Repr() - old(Repr()))
      ensures Outcome(r, State(), None) == Session.ResolveEnter(old(State()), w)
    {
      ghost var s0 := State();
      r := Ok;
      if tagsItems.selected.Some? {
        var t := tagsItems.items[tagsItems.selected.value];
        var filter := tagsFilter + [t];
        var bs, bItems, ts, tItems := RefreshState(repo, filter);
        tagsFilter, bookmarks, bookmarksItems := filter, bs, bItems;
        assert State() == s0.(tagsFilter := filter, bookmarks := bs, bookmarksItems := WithItems(bs));
      }
    }

    /** Enter in Create mode on the tag pane: the selected tag joins the
        chosen tags. */
    method EnterCreateTags(w: World) returns (r: Status)
      requires Valid() && mode.Create? && mode.creation.activeWindow == Tags
      modifies this
      ensures Valid() && Repr() == old(Repr())
      ensures Outcome(r, State(), None) == Session.ResolveEnter(old(State()), w)
    {
      var p := mode.creation;
      if p.tagsItems.selected.Some? {
        var t := p.tagsItems.items[p.tagsItems.selected.value];
        mode := Create(p.(selectedTags := p.selectedTags + [t]));
      }
      r := Ok;
    }

    /** Enter in Create mode on the title or link pane: store the new
        bookmark and go back to scrolling. */
    method EnterCreateStore(w: World) returns (r: Status)
      requires Valid() && mode.Create? && mode.creation.activeWindow != Tags
      modifies this, repo
      ensures Valid() && fresh(Repr() - old(Repr()))
      ensures Outcome(r, State(), None) == Session.ResolveEnter(old(State()), w)
    {
      ghost var s0 := State();
      var p := mode.creation;
      var url := Parse(p.link.value);
      if url.None? {
        return Failure(InvalidUrl);
      }
      var title := Some(p.title.value);
      var created := Repos.Create(repo, title, url.value, Some(p.selectedTags), w.faults);
      if created.Failure? {
        return Failure(created.error);
      }
      ghost var v := Transactions.Create(s0.db, title, url.value, Some(p.selectedTags), w.faults).value;
      assert repo.db == v.0 && State() == s0.(db := v.0);
      ReloadAndScroll();
      r := Ok;
    }

    /** After a bookmark is stored: both lists reloaded under the filter,
        and back to scrolling. */
    method ReloadAndScroll()
      requires Valid()
      modifies this
      ensures Valid() && fresh(Repr() - old(Repr()))
      ensures var bs := Store.QueryBookmarks(repo.db, tagsFilter);
              State() == old(State()).(bookmarks := bs, bookmarksItems := WithItems(bs),
                                       tags := repo.db.tags, tagsItems := WithItems(repo.db.tags),
                                       mode := Scrolling)
    {
      ghost var s0 := State();
      var bs, bItems, ts, tItems := RefreshState(repo, tagsFilter);
      bookmarks, bookmarksItems, tags, tagsItems := bs, bItems, ts, tItems;
      mode := Scrolling;
      assert State() == s0.(bookmarks := bs, bookmarksItems := WithItems(bs),
                            tags := ts, tagsItems := WithItems(ts), mode := Scrolling);
    }

    /** Enter while scrolling: hand the selected bookmark's URL to the browser. */
    method EnterScrolling(w: World) returns (r: Status, launched: Option<string>)
      requires Valid() && mode.Scrolling?
      ensures Outcome(r, State(), launched) == Session.ResolveEnter(State(), w)
    {
      r, launched := Ok, None;
      if bookmarksItems.selected.Some? {
        var url := UrlIntoString(bookmarksItems.items[bookmarksItems.selected.value].url);
        launched := Some(url);
        if !w.open(url) {
          r := Failure(LaunchFailed);
        }
      }
    }

    /** `App::on_delete`. */
    method OnDelete() returns (r: Status)
      requires Valid()
      modifies this, repo
      ensures Valid() && fresh(Repr() - old(Repr()))
      ensures Outcome(r, State(), None) == Session.OnDelete(old(State()))
    {
      ghost var s0 := State();
      r := Ok;
      if mode.Scrolling? && bookmarksItems.selected.Some? {
        var id := bookmarksItems.items[bookmarksItems.selected.value].id;
        r := Repos.Delete(repo, id);
        var bs, bItems, ts, tItems := RefreshState(repo, tagsFilter);
        bookmarks, bookmarksItems := bs, bItems;
        assert State() == s0.(bookmarks := bs, bookmarksItems := WithItems(bs), db := Store.Delete(s0.db, id));
      }
    }

    /** `App::add_char`. */
    method AddChar(key: KeyEvent, w: World) returns (r: Status)
      requires Valid()
      modifies this, bookmarksItems
      ensures Valid() && Repr() == old(Repr())
      ensures Outcome(r, State(), None) == Session.AddChar(old(State()), key, w)
    {
      if mode.Search? {
        var p := mode.searching;
        if p.activeWindow != Tags {
          var forTitles := p.activeWindow == Title;
          var buffer := w.edit(if forTitles then p.title else p.link, key);
          mode := Search(if forTitles then p.(title := buffer) else p.(link := buffer));
          var found := BookmarkSearch.Search(bookmarks, buffer.value, forTitles, w.score);
          if found.Failure? {
            return Failure(found.error);
          }
          bookmarksItems.Unselect();
          bookmarksItems.items := found.value;
        }
      } else if mode.Create? {
        var p := mode.creation;
        if p.activeWindow == Link {
          mode := Create(p.(link := w.edit(p.link, key)));
        } else if p.activeWindow == Title {
          mode := Create(p.(title := w.edit(p.title, key)));
        }
      }
      return Ok;
    }
  }
}
