/** app.rs: the state of the application as a value, and what each
    operation of `App` does to it. The `App` class (app.dfy) keeps this
    state in objects and is proved to follow these functions; what the
    operations promise is proved here, once, about the functions. */
module Session {
  import opened Wrappers
  import opened Text
  import opened Keys
  import opened Url
  import opened Tags
  import opened Bookmarks
  import Store
  import Transactions
  import BookmarkSearch

  // ---------------------------------------------------------------------
  // `StatefulList` (app.rs:338-390) as a value

  /** A list and its highlighted position (`ListState::selected`). */
  datatype Cursor<T> = Cursor(items: seq<T>, selected: Option<nat>)

  /** The highlighted position, if any, is a position of the list. */
  predicate InRange<T>(c: Cursor<T>) {
    c.selected.Some? ==> c.selected.value < |c.items|
  }

  /** `StatefulList::with_items`: nothing highlighted. */
  function WithItems<T>(items: seq<T>): (c: Cursor<T>)
    ensures c.items == items && InRange(c)
  {
    Cursor(items, None)
  }

  /** `StatefulList::next`: one down, from the last back to the first; from
      nothing to the first. An empty list is left alone. */
  function Next<T>(c: Cursor<T>): (r: Cursor<T>)
    ensures r.items == c.items
    ensures |c.items| == 0 ==> r == c
    ensures |c.items| > 0 ==> InRange(r)
    ensures |c.items| > 0 && InRange(c) ==>
              r.selected == Some(if c.selected.None? then 0 else (c.selected.value + 1) % |c.items|)
  {
    if |c.items| == 0 then c
    else
      var i := match c.selected
        case None => 0
        case Some(i) => if i >= |c.items| - 1 then 0 else i + 1;
      c.(selected := Some(i))
  }

  /** `StatefulList::previous`: one up, from the first round to the last;
      from nothing to the first. An empty list is left alone. */
  function Previous<T>(c: Cursor<T>): (r: Cursor<T>)
    ensures r.items == c.items
    ensures |c.items| == 0 ==> r == c
    ensures InRange(c) ==> InRange(r)
    ensures |c.items| > 0 && InRange(c) ==>
              r.selected == Some(if c.selected.None? then 0
                                 else (c.selected.value + |c.items| - 1) % |c.items|)
  {
    if |c.items| == 0 then c
    else
      var i := match c.selected
        case None => 0
        case Some(i) => if i == 0 then |c.items| - 1 else i - 1;
      c.(selected := Some(i))
  }

  /** `StatefulList::unselect`. */
  function Unselect<T>(c: Cursor<T>): (r: Cursor<T>)
    ensures r.items == c.items && r.selected.None? && InRange(r)
  {
    c.(selected := None)
  }

  /** `Next` applied `k` times. */
  function NextTimes<T>(c: Cursor<T>, k: nat): Cursor<T>
  {
    if k == 0 then c else Next(NextTimes(c, k - 1))
  }

  /** Moving down and then up, or up and then down, returns to the
      highlighted entry. */
  lemma NextPreviousInverse<T>(c: Cursor<T>)
    requires InRange(c) && c.selected.Some?
    ensures Previous(Next(c)) == c && Next(Previous(c)) == c
  {
  }

  lemma {:induction false} MulAtLeast(k: nat, n: nat)
    requires k >= 1
    ensures k * n >= n
    decreases k
  {
    if k > 1 {
      MulAtLeast(k - 1, n);
      assert k * n == (k - 1) * n + n;
    }
  }

  /** The remainder is the `r` of any `a == q * n + r` with `0 <= r < n`. */
  lemma ModUnique(a: int, n: int, q: int, r: int)
    requires n > 0 && 0 <= r < n && a == q * n + r
    ensures a % n == r
  {
    var q', r' := a / n, a % n;
    assert a == q' * n + r';
    if q' != q {
      var d := if q' < q then q - q' else q' - q;
      assert d * n == if q' < q then r' - r else r - r';
      MulAtLeast(d, n);
    }
  }

  lemma ModSucc(a: nat, n: nat)
    requires n > 0
    ensures (a % n + 1) % n == (a + 1) % n
  {
    var q, r := a / n, a % n;
    assert a == q * n + r;
    if r + 1 < n {
      ModUnique(a + 1, n, q, r + 1);
      ModUnique(r + 1, n, 0, r + 1);
    } else {
      ModUnique(a + 1, n, q + 1, 0);
      ModUnique(r + 1, n, 1, 0);
    }
  }

  /** `k` steps down from entry `i` of a list of `n` land on entry
      `(i + k) mod n`. */
  lemma {:induction false} NextCycle<T>(c: Cursor<T>, k: nat)
    requires InRange(c) && c.selected.Some?
    ensures NextTimes(c, k) == c.(selected := Some((c.selected.value + k) % |c.items|))
    decreases k
  {
    if k > 0 {
      NextCycle(c, k - 1);
      ModSucc(c.selected.value + k - 1, |c.items|);
    }
  }

  /** As many steps down as the list is long bring the highlight back. */
  lemma NextFullCycle<T>(c: Cursor<T>)
    requires InRange(c) && c.selected.Some?
    ensures NextTimes(c, |c.items|) == c
  {
    NextCycle(c, |c.items|);
    var i, n := c.selected.value, |c.items|;
    ModUnique(i + n, n, 1, i);
  }

  // ---------------------------------------------------------------------
  // Modes and their parameters (app.rs:278-336)

  /** The three input panes of the search and creation screens. */
  datatype ActiveWindow = Title | Link | Tags

  /** `change_active_window`'s step (app.rs:89-98). */
  function NextWindow(w: ActiveWindow): (r: ActiveWindow)
    ensures r != w
  {
    match w
    case Link => Title
    case Title => Tags
    case Tags => Link
  }

  /** Tab visits the three panes in turn: Title, Tags, Link. */
  lemma WindowCycle(w: ActiveWindow)
    ensures NextWindow(NextWindow(w)) != w
    ensures NextWindow(NextWindow(NextWindow(w))) == w
    ensures NextWindow(Title) == Tags && NextWindow(Tags) == Link && NextWindow(Link) == Title
  {
  }

  /** A `tui_input::Input`: the text and the caret position. */
  datatype Input = Input(value: string, cursor: nat)

  const EmptyInput: Input := Input("", 0)

  /** `SearchingParams`; `tags` is never read by the application. */
  datatype SearchingParams = SearchingParams(activeWindow: ActiveWindow, title: Input, link: Input,
                                             tags: Option<seq<Tag>>)

  /** `SearchingParams::default()`. */
  const DefaultSearching: SearchingParams := SearchingParams(Title, EmptyInput, EmptyInput, None)

  /** `CreationParams`; `L` is the tag list: an object in `App`, a value in
      `AppState`. */
  datatype CreationParams<L> = CreationParams(activeWindow: ActiveWindow, title: Input, link: Input,
                                              tagsItems: L, selectedTags: seq<Tag>)

  /** `Mode`. */
  datatype Mode<L> = Search(searching: SearchingParams) | Create(creation: CreationParams<L>) | Scrolling

  // ---------------------------------------------------------------------
  // The whole state

  /** The fields of `App` (app.rs:17-27), with the repository's database. */
  datatype AppState = AppState(
    bookmarks: seq<Bookmark>,
    bookmarksItems: Cursor<Bookmark>,
    tags: seq<Tag>,
    tagsItems: Cursor<Tag>,
    mode: Mode<Cursor<Tag>>,
    tagsFilter: seq<Tag>,
    renderHelp: bool,
    shouldQuit: bool,
    db: Store.Db)

  /** What every operation keeps: a consistent database, loaded bookmarks
      with distinct keys (what the search relies on), and every highlight
      inside its list, so that indexing by it never panics. */
  predicate Inv(s: AppState) {
    Store.Valid(s.db) && BookmarkSearch.UniqueIds(s.bookmarks) &&
    InRange(s.bookmarksItems) && InRange(s.tagsItems) &&
    (s.mode.Create? ==> InRange(s.mode.creation.tagsItems))
  }

  /** `fetch_all` never returns a key twice. */
  lemma QueryUnique(db: Store.Db, filter: seq<Tag>)
    requires Store.Valid(db)
    ensures BookmarkSearch.UniqueIds(Store.QueryBookmarks(db, filter))
  {
    Store.FetchInKeyOrder(db, filter);
  }

  /** Nor does `batch_create`: its keys are consecutive. */
  lemma BatchUnique(db: Store.Db, ps: seq<NewBookmarkParams>, faults: set<nat>)
    requires Store.Valid(db) && Transactions.BatchCreate(db, ps, faults).Success?
    ensures BookmarkSearch.UniqueIds(Transactions.BatchCreate(db, ps, faults).value.1)
  {
    Transactions.BatchCreateShape(db, ps, faults);
    var bs := Transactions.BatchCreate(db, ps, faults).value.1;
    forall i, j | 0 <= i < j < |bs| ensures bs[i].id != bs[j].id {
      assert Transactions.Mirrors(bs[i], ps[i], db.nextBookmarkId + i);
      assert Transactions.Mirrors(bs[j], ps[j], db.nextBookmarkId + j);
    }
  }

  /** What an operation takes from outside the application. */
  datatype World = World(
    edit: (Input, KeyEvent) -> Input,                 // `Input::handle_event`
    score: BookmarkSearch.Scorer,                     // the `simsearch` engine
    remote: Result<seq<NewBookmarkParams>, Error>,    // `tagpacker::get_links`
    open: string -> bool,                             // `open::that` succeeded
    faults: set<nat>)                                 // failing statements of a transaction

  /** The result of an operation, the state after it, and the URL handed to
      the browser, if any. */
  datatype Outcome = Outcome(status: Status, next: AppState, launched: Option<string>)

  function Done(s: AppState): Outcome {
    Outcome(Ok, s, None)
  }

  // ---------------------------------------------------------------------
  // The operations

  /** `App::new` after the repository is open: all bookmarks and tags,
      nothing selected, scrolling. */
  function Initial(db: Store.Db): (s: AppState)
    requires Store.Valid(db)
    ensures Inv(s) && s.mode.Scrolling? && s.tagsFilter == [] && !s.shouldQuit
  {
    var bs := Store.QueryBookmarks(db, []);
    QueryUnique(db, []);
    AppState(bs, WithItems(bs), db.tags, WithItems(db.tags), Scrolling, [], false, false, db)
  }

  /** `quit`. */
  function Quit(s: AppState): AppState {
    s.(shouldQuit := true)
  }

  /** `toggle_help_render`. */
  function ToggleHelp(s: AppState): AppState {
    s.(renderHelp := !s.renderHelp)
  }

  /** `toggle_mode`: search and scrolling swap, a fresh search each time;
      creation stays (its parameters cloned). */
  function ToggleMode(s: AppState): AppState {
    match s.mode
    case Search(_) => s.(mode := Scrolling)
    case Create(_) => s
    case Scrolling => s.(mode := Search(DefaultSearching))
  }

  /** `toggle_creation_mode`: creation ends in scrolling; any other mode
      opens an empty creation form over all loaded tags. */
  function ToggleCreationMode(s: AppState): AppState {
    if s.mode.Create? then s.(mode := Scrolling)
    else s.(mode := Create(CreationParams(Title, EmptyInput, EmptyInput, WithItems(s.tags), [])))
  }

  /** `reset`: both lists reloaded unfiltered, the filter dropped; the
      loaded `bookmarks` and `tags` and the mode stay. */
  function Reset(s: AppState): AppState
    requires Store.UrlsParse(s.db.bookmarks)
  {
    s.(bookmarksItems := WithItems(Store.QueryBookmarks(s.db, [])),
       tagsItems := WithItems(s.db.tags),
       tagsFilter := [])
  }

  /** `change_active_window`. */
  function ChangeActiveWindow(s: AppState): AppState {
    match s.mode
    case Search(p) => s.(mode := Search(p.(activeWindow := NextWindow(p.activeWindow))))
    case Create(p) => s.(mode := Create(p.(activeWindow := NextWindow(p.activeWindow))))
    case Scrolling => s
  }

  /** `sync_bmarks`: the remote list stored in one transaction; the loaded
      bookmarks become what the batch returned, the tags all tags. */
  function SyncBmarks(s: AppState, w: World): Outcome
  {
    match w.remote
    case Failure(e) => Outcome(Failure(e), s, None)
    case Success(ps) =>
      match Transactions.BatchCreate(s.db, ps, w.faults)
      case Failure(e) => Outcome(Failure(e), s, None)
      case Success(v) =>
        Done(s.(bookmarks := v.1, bookmarksItems := WithItems(v.1),
                tags := v.0.tags, tagsItems := WithItems(v.0.tags), db := v.0))
  }

  /** `resolve_enter`. */
  function ResolveEnter(s: AppState, w: World): Outcome
    requires Inv(s)
  {
    match s.mode
    case Search(_) =>
      if s.tagsItems.selected.None? then Done(s)
      else
        var filter := s.tagsFilter + [s.tagsItems.items[s.tagsItems.selected.value]];
        var bs := Store.QueryBookmarks(s.db, filter);
        Done(s.(tagsFilter := filter, bookmarks := bs, bookmarksItems := WithItems(bs)))
    case Create(p) =>
      if p.activeWindow == Tags then
        if p.tagsItems.selected.None? then Done(s)
        else
          var t := p.tagsItems.items[p.tagsItems.selected.value];
          Done(s.(mode := Create(p.(selectedTags := p.selectedTags + [t]))))
      else
        (match Parse(p.link.value)
         case None => Outcome(Failure(InvalidUrl), s, None)
         case Some(url) =>
           match Transactions.Create(s.db, Some(p.title.value), url, Some(p.selectedTags), w.faults)
           case Failure(e) => Outcome(Failure(e), s, None)
           case Success(v) =>
             Transactions.CreateShape(s.db, Some(p.title.value), url, Some(p.selectedTags), w.faults);
             var bs := Store.QueryBookmarks(v.0, s.tagsFilter);
             Done(s.(bookmarks := bs, bookmarksItems := WithItems(bs),
                     tags := v.0.tags, tagsItems := WithItems(v.0.tags),
                     mode := Scrolling, db := v.0)))
    case Scrolling =>
      if s.bookmarksItems.selected.None? then Done(s)
      else
        var url := UrlIntoString(s.bookmarksItems.items[s.bookmarksItems.selected.value].url);
        Outcome(if w.open(url) then Ok else Failure(LaunchFailed), s, Some(url))
  }

  /** `on_delete`. */
  function OnDelete(s: AppState): Outcome
    requires Inv(s)
  {
    if !s.mode.Scrolling? || s.bookmarksItems.selected.None? then Done(s)
    else
      var id := s.bookmarksItems.items[s.bookmarksItems.selected.value].id;
      Store.DeleteValid(s.db, id);
      var db := Store.Delete(s.db, id);
      var bs := Store.QueryBookmarks(db, s.tagsFilter);
      Done(s.(bookmarks := bs, bookmarksItems := WithItems(bs), db := db))
  }

  /** `add_char`: the key goes to the title or link buffer; while
      searching, the buffer is then searched for and the result shown. A
      failing search leaves the edited buffer in place. */
  function AddChar(s: AppState, key: KeyEvent, w: World): Outcome
  {
    match s.mode
    case Search(p) =>
      if p.activeWindow == Tags then Done(s)
      else
        var forTitles := p.activeWindow == Title;
        var buffer := w.edit(if forTitles then p.title else p.link, key);
        var s2 := s.(mode := Search(if forTitles then p.(title := buffer) else p.(link := buffer)));
        (match BookmarkSearch.SearchResult(s.bookmarks, buffer.value, forTitles, w.score)
         case Failure(e) => Outcome(Failure(e), s2, None)
         case Success(found) => Done(s2.(bookmarksItems := Cursor(found, None))))
    case Create(p) =>
      if p.activeWindow == Link then Done(s.(mode := Create(p.(link := w.edit(p.link, key)))))
      else if p.activeWindow == Title then Done(s.(mode := Create(p.(title := w.edit(p.title, key)))))
      else Done(s)
    case Scrolling => Done(s)
  }

  // ---------------------------------------------------------------------
  // What the operations promise

  /** Toggling twice from scrolling returns to scrolling; from search it
      returns to an empty search; creation is a fixed point. */
  lemma ToggleModeTwice(s: AppState)
    ensures s.mode.Scrolling? ==> ToggleMode(ToggleMode(s)) == s
    ensures s.mode.Search? ==> ToggleMode(ToggleMode(s)) == s.(mode := Search(DefaultSearching))
    ensures s.mode.Create? ==> ToggleMode(s) == s
  {
  }

  /** F3 twice: from scrolling back to scrolling; from creation to an empty
      form over the loaded tags; a search is abandoned for scrolling. */
  lemma ToggleCreationTwice(s: AppState)
    ensures s.mode.Scrolling? ==> ToggleCreationMode(ToggleCreationMode(s)) == s
    ensures s.mode.Search? ==> ToggleCreationMode(ToggleCreationMode(s)) == s.(mode := Scrolling)
    ensures s.mode.Create? ==>
              ToggleCreationMode(ToggleCreationMode(s)) ==
                s.(mode := Create(CreationParams(Title, EmptyInput, EmptyInput, WithItems(s.tags), [])))
  {
  }

  /** Three Tabs return to the same pane, in every mode. */
  lemma ChangeWindowThrice(s: AppState)
    ensures ChangeActiveWindow(ChangeActiveWindow(ChangeActiveWindow(s))) == s
  {
    match s.mode
    case Search(p) => WindowCycle(p.activeWindow);
    case Create(p) => WindowCycle(p.activeWindow);
    case Scrolling =>
  }

  /** Enter while searching appends the highlighted tag to the filter, even
      when it is already there, and shows the bookmarks the new filter
      selects; a repeated tag selects the same bookmarks as before. */
  lemma SearchEnterAppends(s: AppState, w: World)
    requires Inv(s) && s.mode.Search? && s.tagsItems.selected.Some?
    ensures var t := s.tagsItems.items[s.tagsItems.selected.value];
            var n := ResolveEnter(s, w).next;
            ResolveEnter(s, w).status == Ok &&
            n.tagsFilter == s.tagsFilter + [t] && |n.tagsFilter| == |s.tagsFilter| + 1 &&
            n.bookmarks == Store.QueryBookmarks(s.db, n.tagsFilter) &&
            n.bookmarksItems == WithItems(n.bookmarks) &&
            n.tags == s.tags && n.tagsItems == s.tagsItems && n.db == s.db &&
            (t in s.tagsFilter ==> n.bookmarks == Store.QueryBookmarks(s.db, s.tagsFilter))
  {
    var t := s.tagsItems.items[s.tagsItems.selected.value];
    if t in s.tagsFilter {
      Store.FilterRepeatedTag(Store.Aggregate(s.db), s.tagsFilter, t);
    }
  }

  /** Enter on the title or link pane of the creation form with a link that
      does not parse is an error that changes nothing. */
  lemma CreateEnterInvalidUrl(s: AppState, w: World)
    requires Inv(s) && s.mode.Create? && s.mode.creation.activeWindow != Tags
    requires Parse(s.mode.creation.link.value).None?
    ensures ResolveEnter(s, w) == Outcome(Failure(InvalidUrl), s, None)
  {
  }

  /** Enter on the title or link pane with a link that parses stores the
      bookmark with the title buffer as its title (even when empty) and the
      chosen tags, reloads both lists under the current filter and goes
      back to scrolling. It fails exactly when a statement of the
      transaction fails or keys are exhausted, and then changes nothing. */
  lemma CreateEnter(s: AppState, w: World)
    requires Inv(s) && s.mode.Create? && s.mode.creation.activeWindow != Tags
    requires Parse(s.mode.creation.link.value).Some?
    ensures var p, o := s.mode.creation, ResolveEnter(s, w);
            var url := Parse(p.link.value).value;
            var id := s.db.nextBookmarkId;
            (o.status.Success? <==>
               id <= I64_MAX && forall k :: 0 <= k < |p.selectedTags| + 3 ==> k !in w.faults) &&
            (o.status.Failure? ==> o.next == s && o.launched.None?) &&
            (o.status.Success? ==>
               Inv(o.next) && o.next.mode.Scrolling? && o.next.tagsFilter == s.tagsFilter &&
               o.next.db.bookmarks == s.db.bookmarks + [Store.BookmarkRow(id, Some(p.title.value), Serialize(url))] &&
               o.next.db.links == s.db.links + Transactions.LinksTo(id, p.selectedTags) &&
               o.next.db.tags == s.db.tags && o.next.tags == s.db.tags &&
               o.next.bookmarks == Store.QueryBookmarks(o.next.db, s.tagsFilter) &&
               o.next.bookmarksItems == WithItems(o.next.bookmarks) &&
               o.next.tagsItems == WithItems(o.next.tags))
  {
    var p := s.mode.creation;
    var url := Parse(p.link.value).value;
    Transactions.CreateSucceeds(s.db, Some(p.title.value), url, Some(p.selectedTags), w.faults);
    if Transactions.Create(s.db, Some(p.title.value), url, Some(p.selectedTags), w.faults).Success? {
      Transactions.CreateShape(s.db, Some(p.title.value), url, Some(p.selectedTags), w.faults);
      var db2 := Transactions.Create(s.db, Some(p.title.value), url, Some(p.selectedTags), w.faults).value.0;
      QueryUnique(db2, s.tagsFilter);
    }
  }

  /** Enter on the tag pane of the creation form appends the highlighted
      tag to the chosen ones, repeats included; nothing else changes. */
  lemma CreateEnterTags(s: AppState, w: World)
    requires Inv(s) && s.mode.Create? && s.mode.creation.activeWindow == Tags
    ensures var p, o := s.mode.creation, ResolveEnter(s, w);
            o.status == Ok && o.next.mode.Create? && o.next.db == s.db &&
            o.next.mode.creation.tagsItems == p.tagsItems &&
            (p.tagsItems.selected.None? ==> o.next == s) &&
            (p.tagsItems.selected.Some? ==>
               o.next.mode.creation.selectedTags ==
                 p.selectedTags + [p.tagsItems.items[p.tagsItems.selected.value]])
  {
  }

  /** Enter while scrolling hands the highlighted bookmark's URL to the
      browser and changes nothing; a failed launch is an error. */
  lemma ScrollingEnterOpens(s: AppState, w: World)
    requires Inv(s) && s.mode.Scrolling?
    ensures var o := ResolveEnter(s, w);
            o.next == s &&
            (s.bookmarksItems.selected.None? ==> o.status == Ok && o.launched.None?) &&
            (s.bookmarksItems.selected.Some? ==>
               var b := s.bookmarksItems.items[s.bookmarksItems.selected.value];
               o.launched == Some(UrlIntoString(b.url)) && Parse(o.launched.value) == Some(b.url.inner) &&
               (o.status == Ok <==> w.open(o.launched.value)) &&
               (o.status.Failure? ==> o.status.error == LaunchFailed))
  {
  }

  /** Delete does nothing outside scrolling or with nothing highlighted;
      otherwise it removes the highlighted bookmark, which no longer shows,
      and reloads the bookmarks under the current filter; the tags stay. */
  lemma OnDeleteRemoves(s: AppState)
    requires Inv(s)
    ensures var o := OnDelete(s);
            o.status == Ok && o.launched.None? && Inv(o.next) &&
            (!s.mode.Scrolling? || s.bookmarksItems.selected.None? ==> o.next == s) &&
            (s.mode.Scrolling? && s.bookmarksItems.selected.Some? ==>
               var id := s.bookmarksItems.items[s.bookmarksItems.selected.value].id;
               o.next.db == Store.Delete(s.db, id) &&
               (forall b :: b in o.next.bookmarks ==> b.id != id) &&
               o.next.bookmarks == Store.QueryBookmarks(o.next.db, s.tagsFilter) &&
               o.next.bookmarksItems == WithItems(o.next.bookmarks) &&
               o.next.tags == s.tags && o.next.tagsItems == s.tagsItems &&
               o.next.tagsFilter == s.tagsFilter && o.next.mode == s.mode)
  {
    if s.mode.Scrolling? && s.bookmarksItems.selected.Some? {
      var id := s.bookmarksItems.items[s.bookmarksItems.selected.value].id;
      Store.DeleteValid(s.db, id);
      QueryUnique(Store.Delete(s.db, id), s.tagsFilter);
      forall b | b in OnDelete(s).next.bookmarks ensures b.id != id {
        Store.DeletedAbsent(s.db, id, s.tagsFilter, b);
      }
    }
  }

  /** Reset lists every stored bookmark, in table order, and every tag,
      nothing highlighted, and forgets the filter; the loaded `bookmarks`
      and `tags`, the mode and the database stay. */
  lemma ResetEffect(s: AppState)
    requires Inv(s)
    ensures var n := Reset(s);
            Inv(n) &&
            n.bookmarksItems == WithItems(Store.QueryBookmarks(s.db, [])) &&
            n.tagsItems == WithItems(s.db.tags) && n.tagsFilter == [] &&
            n.bookmarks == s.bookmarks && n.tags == s.tags && n.mode == s.mode && n.db == s.db &&
            n.renderHelp == s.renderHelp && n.shouldQuit == s.shouldQuit &&
            |n.bookmarksItems.items| == |s.db.bookmarks| &&
            forall i :: 0 <= i < |s.db.bookmarks| ==>
              n.bookmarksItems.items[i].id == s.db.bookmarks[i].id &&
              n.bookmarksItems.items[i].title == s.db.bookmarks[i].title &&
              n.bookmarksItems.items[i].url.inner == Parse(s.db.bookmarks[i].url).value
  {
    var items := Store.QueryBookmarks(s.db, []);
    forall i | 0 <= i < |s.db.bookmarks|
      ensures items[i].id == s.db.bookmarks[i].id && items[i].title == s.db.bookmarks[i].title &&
              items[i].url.inner == Parse(s.db.bookmarks[i].url).value
    {
      assert Store.Aggregate(s.db)[i] == Store.RowOf(s.db, s.db.bookmarks[i]);
    }
  }

  /** Reset does not undo a filtering Enter everywhere: the lists show
      everything again, but the loaded `bookmarks` that searches run over
      stay the filtered ones, and the tags and the mode stay. */
  lemma ResetAfterFilter(s: AppState, w: World)
    requires Inv(s) && s.mode.Search? && s.tagsItems.selected.Some?
    ensures var n := ResolveEnter(s, w).next;
            var t := s.tagsItems.items[s.tagsItems.selected.value];
            Reset(n).tagsFilter == [] &&
            Reset(n).bookmarksItems == WithItems(Store.QueryBookmarks(s.db, [])) &&
            Reset(n).tagsItems == WithItems(s.db.tags) &&
            Reset(n).bookmarks == Store.QueryBookmarks(s.db, s.tagsFilter + [t]) &&
            Reset(n).tags == s.tags && Reset(n).mode == s.mode
  {
  }

  /** A key typed into a search pane edits that pane's buffer and shows
      at most 15 matching bookmarks, nothing highlighted; the search fails
      exactly when the buffer is non-empty and a titled bookmark's key does
      not fit in `u32`, and then only the buffer has changed. */
  lemma AddCharSearch(s: AppState, key: KeyEvent, w: World)
    requires s.mode.Search? && s.mode.searching.activeWindow != Tags
    ensures var p, o := s.mode.searching, AddChar(s, key, w);
            var forTitles := p.activeWindow == Title;
            var buffer := w.edit(if forTitles then p.title else p.link, key);
            o.launched.None? &&
            o.next.mode == Search(if forTitles then p.(title := buffer) else p.(link := buffer)) &&
            (o.status.Failure? <==>
               buffer.value != "" &&
               exists i :: 0 <= i < |s.bookmarks| && s.bookmarks[i].title.Some? &&
                           !BookmarkSearch.InU32(s.bookmarks[i].id)) &&
            (o.status.Failure? ==> o.status.error == IdOutOfRange &&
                                   o.next == s.(mode := o.next.mode)) &&
            (o.status.Success? ==>
               o.next == s.(mode := o.next.mode, bookmarksItems := o.next.bookmarksItems) &&
               o.next.bookmarksItems.selected.None? &&
               (buffer.value == "" ==> o.next.bookmarksItems.items == s.bookmarks) &&
               (buffer.value != "" ==> |o.next.bookmarksItems.items| <= BookmarkSearch.MaxResults) &&
               (forall b :: b in o.next.bookmarksItems.items ==> b in s.bookmarks) &&
               (Inv(s) && buffer.value != "" ==>
                  forall b :: b in o.next.bookmarksItems.items ==>
                    b.title.Some? && w.score(buffer.value, BookmarkSearch.IndexText(b, forTitles)) > 0))
  {
    var p := s.mode.searching;
    var forTitles := p.activeWindow == Title;
    var buffer := w.edit(if forTitles then p.title else p.link, key);
    if buffer.value != "" {
      BookmarkSearch.SearchBounds(s.bookmarks, buffer.value, forTitles, w.score);
      if Inv(s) {
        BookmarkSearch.SearchMatches(s.bookmarks, buffer.value, forTitles, w.score);
      }
    }
  }

  /** With the state invariant, a non-empty search that succeeds shows the
      first 15 matches of the search engine's ranking, best score first;
      with at most 15 matches, every titled bookmark that matches is shown. */
  lemma AddCharSearchRanked(s: AppState, key: KeyEvent, w: World)
    requires Inv(s) && s.mode.Search? && s.mode.searching.activeWindow != Tags
    ensures var p, o := s.mode.searching, AddChar(s, key, w);
            var forTitles := p.activeWindow == Title;
            var buffer := w.edit(if forTitles then p.title else p.link, key);
            o.status.Success? && buffer.value != "" ==>
              var items := o.next.bookmarksItems.items;
              BookmarkSearch.Fill(s.bookmarks, forTitles).Success? &&
              var n := |BookmarkSearch.Rank(BookmarkSearch.Fill(s.bookmarks, forTitles).value, buffer.value, w.score)|;
              |items| == (if n < BookmarkSearch.MaxResults then n else BookmarkSearch.MaxResults) &&
              (forall i :: 0 <= i < |items| ==> items[i].title.Some?) &&
              (forall i, j :: 0 <= i < j < |items| ==>
                 w.score(buffer.value, BookmarkSearch.IndexText(items[i], forTitles)) >=
                 w.score(buffer.value, BookmarkSearch.IndexText(items[j], forTitles))) &&
              (n <= BookmarkSearch.MaxResults ==>
                 forall b ::
                   (b in s.bookmarks && b.title.Some? &&
                    w.score(buffer.value, BookmarkSearch.IndexText(b, forTitles)) > 0) ==> b in items)
  {
    var p := s.mode.searching;
    var forTitles := p.activeWindow == Title;
    var buffer := w.edit(if forTitles then p.title else p.link, key);
    var o := AddChar(s, key, w);
    if o.status.Success? && buffer.value != "" {
      BookmarkSearch.SearchBounds(s.bookmarks, buffer.value, forTitles, w.score);
      BookmarkSearch.SearchOrdered(s.bookmarks, buffer.value, forTitles, w.score);
      var n := |BookmarkSearch.Rank(BookmarkSearch.Fill(s.bookmarks, forTitles).value, buffer.value, w.score)|;
      forall b | n <= BookmarkSearch.MaxResults && b in s.bookmarks && b.title.Some? &&
                 w.score(buffer.value, BookmarkSearch.IndexText(b, forTitles)) > 0
        ensures b in o.next.bookmarksItems.items
      {
        BookmarkSearch.SearchComplete(s.bookmarks, buffer.value, forTitles, w.score, b);
      }
    }
  }

  /** Outside the search panes a key only edits a creation buffer. */
  lemma AddCharElsewhere(s: AppState, key: KeyEvent, w: World)
    requires !(s.mode.Search? && s.mode.searching.activeWindow != Tags)
    ensures var o := AddChar(s, key, w);
            o.status == Ok && o.launched.None? &&
            (s.mode.Create? && s.mode.creation.activeWindow == Title ==>
               o.next == s.(mode := Create(s.mode.creation.(title := w.edit(s.mode.creation.title, key))))) &&
            (s.mode.Create? && s.mode.creation.activeWindow == Link ==>
               o.next == s.(mode := Create(s.mode.creation.(link := w.edit(s.mode.creation.link, key))))) &&
            (s.mode.Scrolling? || s.mode.Search? || s.mode.creation.activeWindow == Tags ==> o.next == s)
  {
  }

  /** Syncing stores the remote list in one transaction: on failure nothing
      changes; on success the loaded bookmarks are exactly the new ones, in
      list order, each with the item's title, URL and tag names, both lists
      are reloaded with nothing highlighted, the mode stays, and the
      database keeps its invariant. */
  lemma SyncBmarksStores(s: AppState, w: World)
    requires Inv(s)
    ensures var o := SyncBmarks(s, w);
            Inv(o.next) && o.launched.None? &&
            (w.remote.Failure? ==> o == Outcome(Failure(w.remote.error), s, None)) &&
            (o.status.Failure? ==> o.next == s) &&
            (o.status.Success? ==>
               w.remote.Success? &&
               |o.next.bookmarks| == |w.remote.value| &&
               o.next.bookmarksItems == WithItems(o.next.bookmarks) &&
               o.next.tags == o.next.db.tags && o.next.tagsItems == WithItems(o.next.tags) &&
               o.next.tagsFilter == s.tagsFilter && o.next.mode == s.mode &&
               o.next.db.bookmarks == s.db.bookmarks + Transactions.BatchRows(s.db.nextBookmarkId, w.remote.value) &&
               forall i :: 0 <= i < |w.remote.value| ==>
                 Transactions.Mirrors(o.next.bookmarks[i], w.remote.value[i], s.db.nextBookmarkId + i))
  {
    if w.remote.Success? && Transactions.BatchCreate(s.db, w.remote.value, w.faults).Success? {
      Transactions.BatchCreateShape(s.db, w.remote.value, w.faults);
      BatchUnique(s.db, w.remote.value, w.faults);
    }
  }

  /** Every operation keeps the invariant. */
  lemma ResolveEnterKeepsInv(s: AppState, w: World)
    requires Inv(s)
    ensures Inv(ResolveEnter(s, w).next)
  {
    if s.mode.Create? && s.mode.creation.activeWindow != Tags && Parse(s.mode.creation.link.value).Some? {
      CreateEnter(s, w);
    } else if s.mode.Search? && s.tagsItems.selected.Some? {
      QueryUnique(s.db, s.tagsFilter + [s.tagsItems.items[s.tagsItems.selected.value]]);
    }
  }

  lemma AddCharKeepsInv(s: AppState, key: KeyEvent, w: World)
    requires Inv(s)
    ensures Inv(AddChar(s, key, w).next)
  {
  }
}
