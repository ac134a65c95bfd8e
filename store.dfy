/** adapters/sqlite.rs: the database as a value, and what each repository
    query computes from it. The statements that change it, and the
    transactions that group them, are in module `Transactions`; the object
    that owns the database and runs the loops is `Sqlite.Repo`.

    The three tables are kept as sequences in row order. Generated keys come
    from a counter per table that only grows, so a deleted key is never
    handed out again. */
module Store {
  import opened Wrappers
  import opened Text
  import opened Url
  import opened Tags
  import opened Bookmarks
  import opened TagString

  /** A row of `bookmarks`; the URL column is text. */
  datatype BookmarkRow = BookmarkRow(id: int, title: Option<string>, url: string)

  /** A row of `bmarks_tags`. */
  datatype Link = Link(bookmarkId: int, tagId: int)

  /** The three tables, and the next key each table with a generated key
      will hand out. */
  datatype Db = Db(bookmarks: seq<BookmarkRow>, tags: seq<Tag>, links: seq<Link>,
                   nextBookmarkId: int, nextTagId: int)

  /** A freshly migrated database. */
  const Empty: Db := Db([], [], [], 1, 1)

  /** Every stored URL text reads back as a URL (`From<String> for
      BookmarkUrl` panics otherwise). */
  predicate UrlsParse(rows: seq<BookmarkRow>) {
    forall i :: 0 <= i < |rows| ==> Parse(rows[i].url).Some?
  }

  /** Keys are positive, below the counter, and increase in row order. */
  predicate RowKeys(rows: seq<BookmarkRow>, next: int) {
    (forall i :: 0 <= i < |rows| ==> 1 <= rows[i].id < next) &&
    (forall i, j :: 0 <= i < j < |rows| ==> rows[i].id < rows[j].id)
  }

  predicate TagKeys(tags: seq<Tag>, next: int) {
    (forall i :: 0 <= i < |tags| ==> 1 <= tags[i].id < next) &&
    (forall i, j :: 0 <= i < j < |tags| ==> tags[i].id < tags[j].id)
  }

  /** A junction row only ever names a bookmark key already handed out. */
  predicate LinkKeys(links: seq<Link>, next: int) {
    forall i :: 0 <= i < |links| ==> links[i].bookmarkId < next
  }

  /** The invariant every operation keeps. Keys stay within `i64`. */
  predicate Valid(db: Db) {
    1 <= db.nextBookmarkId <= I64_MAX + 1 && 1 <= db.nextTagId <= I64_MAX + 1 &&
    UrlsParse(db.bookmarks) && RowKeys(db.bookmarks, db.nextBookmarkId) &&
    TagKeys(db.tags, db.nextTagId) && LinkKeys(db.links, db.nextBookmarkId)
  }

  lemma EmptyValid()
    ensures Valid(Empty) && Empty.bookmarks == [] && Empty.tags == []
  {
  }

  // ---------------------------------------------------------------------
  // The aggregating query (sqlite.rs:60-71)

  /** The tag rows with key `id`: none once the tag has been deleted. */
  function TagsWithId(tags: seq<Tag>, id: int): (r: seq<Tag>)
    ensures forall i :: 0 <= i < |r| ==> r[i].id == id && r[i] in tags
    ensures forall t :: t in tags && t.id == id ==> t in r
  {
    if tags == [] then []
    else (if tags[0].id == id then [tags[0]] else []) + TagsWithId(tags[1..], id)
  }

  /** `LEFT JOIN bmarks_tags ... LEFT JOIN tags`: the tags joined to
      bookmark `bid`, in junction-row order. A junction row whose tag is
      gone contributes nothing, as `group_concat` skips `NULL`. */
  function LinkedTags(tags: seq<Tag>, links: seq<Link>, bid: int): (r: seq<Tag>)
    ensures forall i :: 0 <= i < |r| ==> r[i] in tags
  {
    if links == [] then []
    else
      (if links[0].bookmarkId == bid then TagsWithId(tags, links[0].tagId) else [])
      + LinkedTags(tags, links[1..], bid)
  }

  /** One output row of the query, `GROUP BY b.id`. */
  function RowOf(db: Db, row: BookmarkRow): (r: RawBookmark)
    requires Parse(row.url).Some?
    ensures r.id == row.id && r.title == row.title && r.url.inner == Parse(row.url).value
  {
    RawBookmark(row.id, row.title, UrlFromString(row.url),
                GroupConcat(LinkedTags(db.tags, db.links, row.id)))
  }

  /** The query's result: one row per bookmark, in table order. */
  function Aggregate(db: Db): (r: seq<RawBookmark>)
    requires UrlsParse(db.bookmarks)
    ensures |r| == |db.bookmarks|
    ensures forall i :: 0 <= i < |r| ==> r[i] == RowOf(db, db.bookmarks[i])
  {
    seq(|db.bookmarks|, i requires 0 <= i < |db.bookmarks| => RowOf(db, db.bookmarks[i]))
  }

  // ---------------------------------------------------------------------
  // The tag filter (sqlite.rs:73-115)

  /** The `for tag_id in bmark_tags_ids { if required.contains(..) }` loop:
      some id of the first list is in the second. */
  function Intersects(xs: seq<int>, ys: seq<int>): (b: bool)
    ensures b <==> exists i :: 0 <= i < |xs| && xs[i] in ys
  {
    if xs == [] then false
    else if xs[0] in ys then true
    else
      var b := Intersects(xs[1..], ys);
      assert forall i :: 1 <= i < |xs| ==> xs[i] == xs[1..][i - 1];
      b
  }

  /** The closure given to `.filter`: a row without tags is dropped. */
  predicate Keep(row: RawBookmark, required: seq<int>) {
    match row.tags
    case None => false
    case Some(s) => Intersects(FilterTagIds(s), required)
  }

  function KeepMatching(rows: seq<RawBookmark>, required: seq<int>): (r: seq<RawBookmark>)
    ensures |r| <= |rows|
  {
    if rows == [] then []
    else (if Keep(rows[0], required) then [rows[0]] else []) + KeepMatching(rows[1..], required)
  }

  /** The filtering step: an empty filter keeps every row. */
  function FilterRows(rows: seq<RawBookmark>, filter: seq<Tag>): (r: seq<RawBookmark>)
    ensures filter == [] ==> r == rows
    ensures |r| <= |rows|
  {
    if filter == [] then rows else KeepMatching(rows, Ids(filter))
  }

  /** A row survives a non-empty filter exactly when it carries tags and one
      id read from them is the id of some filter tag. */
  lemma {:induction false} KeepMatchingMembers(rows: seq<RawBookmark>, required: seq<int>, x: RawBookmark)
    ensures x in KeepMatching(rows, required) <==> x in rows && Keep(x, required)
  {
    if rows != [] {
      KeepMatchingMembers(rows[1..], required, x);
      assert x in rows <==> x == rows[0] || x in rows[1..];
    }
  }

  /** Filtering keeps relative order: it distributes over concatenation. */
  lemma {:induction false} KeepMatchingAppend(a: seq<RawBookmark>, b: seq<RawBookmark>, required: seq<int>)
    ensures KeepMatching(a + b, required) == KeepMatching(a, required) + KeepMatching(b, required)
  {
    if a != [] {
      KeepMatchingAppend(a[1..], b, required);
      assert (a + b)[1..] == a[1..] + b;
    } else {
      assert a + b == b;
    }
  }

  /** The filter is an OR: the rows kept for `f + g` are those kept for `f`
      or kept for `g`. */
  lemma KeepUnion(row: RawBookmark, f: seq<Tag>, g: seq<Tag>)
    ensures Keep(row, Ids(f + g)) <==> Keep(row, Ids(f)) || Keep(row, Ids(g))
  {
    if row.tags.Some? {
      var xs := FilterTagIds(row.tags.value);
      assert forall y :: y in Ids(f + g) <==> y in Ids(f) || y in Ids(g) by {
        forall y ensures y in Ids(f + g) <==> y in Ids(f) || y in Ids(g) {
          if y in Ids(f + g) {
            var k :| 0 <= k < |f + g| && Ids(f + g)[k] == y;
            if k < |f| { assert Ids(f)[k] == y; } else { assert Ids(g)[k - |f|] == y; }
          }
          if y in Ids(f) {
            var k :| 0 <= k < |f| && Ids(f)[k] == y;
            assert Ids(f + g)[k] == y;
          }
          if y in Ids(g) {
            var k :| 0 <= k < |g| && Ids(g)[k] == y;
            assert Ids(f + g)[|f| + k] == y;
          }
        }
      }
    }
  }

  /** Only the set of filter ids matters; the order and repetitions of the
      filter's tags do not. */
  lemma {:induction false} KeepMatchingSameIds(rows: seq<RawBookmark>, r1: seq<int>, r2: seq<int>)
    requires forall y :: y in r1 <==> y in r2
    ensures KeepMatching(rows, r1) == KeepMatching(rows, r2)
  {
    if rows != [] {
      KeepMatchingSameIds(rows[1..], r1, r2);
      assert Keep(rows[0], r1) == Keep(rows[0], r2);
    }
  }

  /** Pushing a tag that is already in a non-empty filter changes nothing. */
  lemma FilterRepeatedTag(rows: seq<RawBookmark>, filter: seq<Tag>, t: Tag)
    requires t in filter
    ensures FilterRows(rows, filter + [t]) == FilterRows(rows, filter)
  {
    forall y ensures y in Ids(filter + [t]) <==> y in Ids(filter) {
      if y in Ids(filter + [t]) {
        var k :| 0 <= k < |filter| + 1 && Ids(filter + [t])[k] == y;
        if k == |filter| {
          var j :| 0 <= j < |filter| && filter[j] == t;
          assert Ids(filter)[j] == y;
        } else {
          assert Ids(filter)[k] == y;
        }
      }
      if y in Ids(filter) {
        var k :| 0 <= k < |filter| && Ids(filter)[k] == y;
        assert Ids(filter + [t])[k] == y;
      }
    }
    KeepMatchingSameIds(rows, Ids(filter + [t]), Ids(filter));
  }

  /** Adding a tag to a non-empty filter never drops a row: it widens. */
  lemma FilterWidens(rows: seq<RawBookmark>, filter: seq<Tag>, t: Tag, x: RawBookmark)
    requires filter != [] && x in FilterRows(rows, filter)
    ensures x in FilterRows(rows, filter + [t])
  {
    KeepMatchingMembers(rows, Ids(filter), x);
    KeepMatchingMembers(rows, Ids(filter + [t]), x);
    KeepUnion(x, filter, [t]);
  }

  // ---------------------------------------------------------------------
  // The materialising step (sqlite.rs:117-141)

  /** `Bookmark::new(record.id, record.title, record.url.into(), tags)`:
      the URL goes to text and back unchanged, and the tags are read with
      the `chunks(2)` parser. */
  function Materialize(row: RawBookmark): (b: Bookmark)
    ensures b.id == row.id && b.title == row.title && b.url == row.url
    ensures b.tags == MaterializeTags(row.tags)
  {
    NewBookmark(row.id, row.title, UrlIntoString(row.url), MaterializeTags(row.tags))
  }

  function MaterializeAll(rows: seq<RawBookmark>): (r: seq<Bookmark>)
    ensures |r| == |rows|
    ensures forall i :: 0 <= i < |rows| ==> r[i] == Materialize(rows[i])
  {
    seq(|rows|, i requires 0 <= i < |rows| => Materialize(rows[i]))
  }

  /** `BookmarkRepo::fetch_all`. */
  function QueryBookmarks(db: Db, filter: seq<Tag>): (r: seq<Bookmark>)
    requires UrlsParse(db.bookmarks)
    ensures |r| <= |db.bookmarks|
  {
    MaterializeAll(FilterRows(Aggregate(db), filter))
  }

  // ---------------------------------------------------------------------
  // What `fetch_all` returns, in terms of the tables

  /** No tag name of the database holds a comma. */
  predicate CommaFreeNames(db: Db) {
    forall i :: 0 <= i < |db.tags| ==> NoComma(db.tags[i].name)
  }

  /** No tag name of the database reads, trimmed, as an `i64`. */
  predicate NoNumericNames(db: Db) {
    forall i :: 0 <= i < |db.tags| ==> ParseI64(Trim(db.tags[i].name)).None?
  }

  /** What a stored tag row satisfies, by membership rather than position. */
  lemma TagRowFacts(db: Db, t: Tag)
    requires Valid(db) && t in db.tags
    ensures InI64(t.id)
    ensures CommaFreeNames(db) ==> NoComma(t.name)
    ensures NoNumericNames(db) ==> ParseI64(Trim(t.name)).None?
  {
    var k :| 0 <= k < |db.tags| && db.tags[k] == t;
  }

  lemma LinkedTagsFacts(db: Db, bid: int)
    requires Valid(db)
    ensures var ts := LinkedTags(db.tags, db.links, bid);
            IdsInI64(ts) &&
            (CommaFreeNames(db) ==> NamesWithoutComma(ts)) &&
            (NoNumericNames(db) ==> NoNumericName(ts))
  {
    var ts := LinkedTags(db.tags, db.links, bid);
    forall i | 0 <= i < |ts|
      ensures InI64(ts[i].id)
      ensures CommaFreeNames(db) ==> NoComma(ts[i].name)
      ensures NoNumericNames(db) ==> ParseI64(Trim(ts[i].name)).None?
    {
      TagRowFacts(db, ts[i]);
    }
  }

  /** Without a filter, `fetch_all` returns every bookmark in table order,
      with its stored URL and, when no tag name holds a comma, exactly the
      tags joined to it (absent when there are none). */
  lemma FetchUnfiltered(db: Db, i: int)
    requires Valid(db) && CommaFreeNames(db) && 0 <= i < |db.bookmarks|
    ensures |QueryBookmarks(db, [])| == |db.bookmarks|
    ensures var b, row := QueryBookmarks(db, [])[i], db.bookmarks[i];
            var ts := LinkedTags(db.tags, db.links, row.id);
            b.id == row.id && b.title == row.title && b.url.inner == Parse(row.url).value &&
            b.tags == (if ts == [] then None else Some(ts))
  {
    var row := db.bookmarks[i];
    LinkedTagsFacts(db, row.id);
    MaterializeGroupConcat(LinkedTags(db.tags, db.links, row.id));
  }

  /** With a non-empty filter, and tag names that neither hold a comma nor
      read as numbers, a row is kept exactly when one of the tags joined to
      it has the id of a filter tag. */
  lemma KeepExact(db: Db, row: BookmarkRow, filter: seq<Tag>)
    requires Valid(db) && CommaFreeNames(db) && NoNumericNames(db) && Parse(row.url).Some?
    ensures var ts := LinkedTags(db.tags, db.links, row.id);
            Keep(RowOf(db, row), Ids(filter)) <==>
              exists k :: 0 <= k < |ts| && ts[k].id in Ids(filter)
  {
    var ts := LinkedTags(db.tags, db.links, row.id);
    LinkedTagsFacts(db, row.id);
    if ts != [] {
      FilterTagIdsExact(ts);
      assert forall k :: 0 <= k < |ts| ==> Ids(ts)[k] == ts[k].id;
    }
  }

  /** Under the same conditions, the rows `fetch_all` keeps for a non-empty
      filter are those of bookmarks joined to at least one filter tag. */
  lemma FetchFiltered(db: Db, filter: seq<Tag>, i: int)
    requires Valid(db) && CommaFreeNames(db) && NoNumericNames(db)
    requires filter != [] && 0 <= i < |db.bookmarks|
    ensures var row := db.bookmarks[i];
            var ts := LinkedTags(db.tags, db.links, row.id);
            RowOf(db, row) in FilterRows(Aggregate(db), filter) <==>
              exists k :: 0 <= k < |ts| && ts[k].id in Ids(filter)
  {
    var row := db.bookmarks[i];
    KeepMatchingMembers(Aggregate(db), Ids(filter), RowOf(db, row));
    assert Aggregate(db)[i] == RowOf(db, row);
    KeepExact(db, row, filter);
  }

  /** Every bookmark `fetch_all` returns is the materialised row of some
      stored bookmark with the same id. */
  lemma FetchFromRows(db: Db, filter: seq<Tag>, b: Bookmark)
    requires UrlsParse(db.bookmarks) && b in QueryBookmarks(db, filter)
    ensures exists i :: 0 <= i < |db.bookmarks| && db.bookmarks[i].id == b.id
  {
    var rows := FilterRows(Aggregate(db), filter);
    var k :| 0 <= k < |rows| && MaterializeAll(rows)[k] == b;
    if filter != [] {
      KeepMatchingMembers(Aggregate(db), Ids(filter), rows[k]);
    }
    assert rows[k] in Aggregate(db);
  }

  /** Keys increase along a list of query rows. */
  predicate AscendingRows(rows: seq<RawBookmark>) {
    forall i, j :: 0 <= i < j < |rows| ==> rows[i].id < rows[j].id
  }

  lemma {:induction false} KeepMatchingAscending(rows: seq<RawBookmark>, required: seq<int>)
    requires AscendingRows(rows)
    ensures AscendingRows(KeepMatching(rows, required))
  {
    if rows != [] {
      KeepMatchingAscending(rows[1..], required);
      var tail := KeepMatching(rows[1..], required);
      forall x | x in tail ensures rows[0].id < x.id {
        KeepMatchingMembers(rows[1..], required, x);
        var k :| 0 <= k < |rows[1..]| && rows[1..][k] == x;
        assert rows[k + 1] == x;
      }
      if Keep(rows[0], required) {
        var r := [rows[0]] + tail;
        forall i, j | 0 <= i < j < |r| ensures r[i].id < r[j].id {
          if i == 0 {
            assert r[j] == tail[j - 1] && tail[j - 1] in tail;
          } else {
            assert r[i] == tail[i - 1] && r[j] == tail[j - 1];
          }
        }
      } else {
        assert KeepMatching(rows, required) == tail;
      }
    }
  }

  /** `fetch_all` returns bookmarks in increasing key order, under any
      filter; in particular no key appears twice. */
  lemma FetchInKeyOrder(db: Db, filter: seq<Tag>)
    requires Valid(db)
    ensures var r := QueryBookmarks(db, filter);
            forall i, j :: 0 <= i < j < |r| ==> r[i].id < r[j].id
  {
    var rows := Aggregate(db);
    assert AscendingRows(rows) by {
      forall i, j | 0 <= i < j < |rows| ensures rows[i].id < rows[j].id {
        assert rows[i].id == db.bookmarks[i].id && rows[j].id == db.bookmarks[j].id;
      }
    }
    if filter != [] {
      KeepMatchingAscending(rows, Ids(filter));
    }
    var kept := FilterRows(rows, filter);
    var r := QueryBookmarks(db, filter);
    forall i, j | 0 <= i < j < |r| ensures r[i].id < r[j].id {
      assert r[i].id == kept[i].id && r[j].id == kept[j].id;
    }
  }

  // ---------------------------------------------------------------------
  // Tag reads (sqlite.rs:291-352)

  /** `SELECT ... WHERE id = $1` with `fetch_one`: the first match, or
      `RowNotFound`. */
  function TagById(tags: seq<Tag>, id: int): (r: Result<Tag, Error>)
    ensures r.Success? ==> r.value in tags && r.value.id == id
    ensures r.Failure? ==> r.error == RowNotFound && forall t :: t in tags ==> t.id != id
  {
    if tags == [] then Failure(RowNotFound)
    else if tags[0].id == id then Success(tags[0])
    else TagById(tags[1..], id)
  }

  /** `SELECT ... WHERE name = $1` with `fetch_one`: the first match, or
      `RowNotFound`. */
  function TagByName(tags: seq<Tag>, name: string): (r: Result<Tag, Error>)
    ensures r.Success? ==> r.value in tags && r.value.name == name
    ensures r.Failure? ==> r.error == RowNotFound && forall t :: t in tags ==> t.name != name
  {
    if tags == [] then Failure(RowNotFound)
    else if tags[0].name == name then Success(tags[0])
    else TagByName(tags[1..], name)
  }

  /** The first tag with a given name is the one every later lookup finds,
      however many rows are added after it. */
  lemma {:induction false} TagByNameAppend(tags: seq<Tag>, more: seq<Tag>, name: string)
    requires TagByName(tags, name).Success?
    ensures TagByName(tags + more, name) == TagByName(tags, name)
  {
    if tags[0].name != name {
      assert (tags + more)[1..] == tags[1..] + more;
      TagByNameAppend(tags[1..], more, name);
    }
  }

  // ---------------------------------------------------------------------
  // Writes outside a transaction (sqlite.rs:274-286, 305-320, 354-368)

  /** `DELETE FROM bookmarks WHERE id = $1`: the bookmark rows with that key
      go; no row is not an error. */
  function DeleteRows(rows: seq<BookmarkRow>, id: int): (r: seq<BookmarkRow>)
    ensures forall x :: x in r <==> x in rows && x.id != id
    ensures (forall x :: x in rows ==> x.id != id) ==> r == rows
  {
    if rows == [] then []
    else (if rows[0].id == id then [] else [rows[0]]) + DeleteRows(rows[1..], id)
  }

  /** `BookmarkRepo::delete`. Junction rows are left alone: whether they
      cascade is a matter of the schema, and since keys are never reused a
      left-over junction row is never joined again. */
  function Delete(db: Db, id: int): (r: Db)
    ensures r.tags == db.tags && r.links == db.links
    ensures forall x :: x in r.bookmarks <==> x in db.bookmarks && x.id != id
  {
    db.(bookmarks := DeleteRows(db.bookmarks, id))
  }

  lemma {:induction false} DeleteRowsKeys(rows: seq<BookmarkRow>, id: int, next: int)
    requires UrlsParse(rows) && RowKeys(rows, next)
    ensures UrlsParse(DeleteRows(rows, id)) && RowKeys(DeleteRows(rows, id), next)
  {
    if rows != [] {
      DeleteRowsKeys(rows[1..], id, next);
      var r := DeleteRows(rows, id);
      forall i, j | 0 <= i < j < |r| ensures r[i].id < r[j].id {
        assert r[i] in rows && r[j] in rows;
        if rows[0].id != id && i == 0 {
          assert r[j] in rows[1..];
        }
      }
      forall i | 0 <= i < |r| ensures Parse(r[i].url).Some? && 1 <= r[i].id < next {
        assert r[i] in rows;
      }
    }
  }

  lemma DeleteValid(db: Db, id: int)
    requires Valid(db)
    ensures Valid(Delete(db, id))
  {
    DeleteRowsKeys(db.bookmarks, id, db.nextBookmarkId);
  }

  /** After `delete(id)`, `fetch_all` never returns a bookmark with that id. */
  lemma DeletedAbsent(db: Db, id: int, filter: seq<Tag>, b: Bookmark)
    requires Valid(db) && b in QueryBookmarks(Delete(db, id), filter)
    ensures b.id != id
  {
    DeleteValid(db, id);
    var d := Delete(db, id);
    FetchFromRows(d, filter, b);
    var i :| 0 <= i < |d.bookmarks| && d.bookmarks[i].id == b.id;
    assert d.bookmarks[i] in d.bookmarks;
  }

  /** `TagsRepo::create`: a new row with the next key. Whether the database
      refuses the insert (a constraint of the schema, such as a unique tag
      name, or the I/O beneath it) is not decided by this code and is the
      input `refused`; running out of keys is an error as well. */
  function TagCreate(db: Db, name: string, refused: bool): (r: Result<(Db, Tag), Error>)
    ensures r.Failure? <==> refused || db.nextTagId > I64_MAX
    ensures r.Failure? ==> r.error == StatementFailed
    ensures r.Success? ==>
              r.value.1 == Tag(db.nextTagId, name) &&
              r.value.0 == db.(tags := db.tags + [r.value.1], nextTagId := db.nextTagId + 1)
  {
    if refused || db.nextTagId > I64_MAX then Failure(StatementFailed)
    else
      var t := Tag(db.nextTagId, name);
      Success((db.(tags := db.tags + [t], nextTagId := db.nextTagId + 1), t))
  }

  lemma TagCreateValid(db: Db, name: string, refused: bool)
    requires Valid(db) && TagCreate(db, name, refused).Success?
    ensures Valid(TagCreate(db, name, refused).value.0)
  {
  }

  function DeleteTagRows(tags: seq<Tag>, id: int): (r: seq<Tag>)
    ensures forall x :: x in r <==> x in tags && x.id != id
  {
    if tags == [] then []
    else (if tags[0].id == id then [] else [tags[0]]) + DeleteTagRows(tags[1..], id)
  }

  /** `TagsRepo::delete`: `DELETE ... RETURNING` with `fetch_one`. The
      removed row is returned; when there is none nothing changes and the
      result is `RowNotFound`. */
  function TagDelete(db: Db, id: int): (r: Result<(Db, Tag), Error>)
    ensures r.Failure? <==> forall t :: t in db.tags ==> t.id != id
    ensures r.Failure? ==> r.error == RowNotFound
    ensures r.Success? ==>
              r.value.1 in db.tags && r.value.1.id == id &&
              r.value.0 == db.(tags := DeleteTagRows(db.tags, id))
  {
    match TagById(db.tags, id)
    case Failure(e) => Failure(e)
    case Success(t) => Success((db.(tags := DeleteTagRows(db.tags, id)), t))
  }

  /** After a successful tag delete, no tag with that key is left and every
      other tag is still there. */
  lemma TagDeleteRemoves(db: Db, id: int)
    requires TagDelete(db, id).Success?
    ensures var d := TagDelete(db, id).value.0;
            (forall t :: t in d.tags ==> t.id != id) &&
            (forall t :: t in db.tags && t.id != id ==> t in d.tags)
  {
  }

  lemma {:induction false} DeleteTagRowsKeys(tags: seq<Tag>, id: int, next: int)
    requires TagKeys(tags, next)
    ensures TagKeys(DeleteTagRows(tags, id), next)
  {
    if tags != [] {
      DeleteTagRowsKeys(tags[1..], id, next);
      var r := DeleteTagRows(tags, id);
      forall i, j | 0 <= i < j < |r| ensures r[i].id < r[j].id {
        assert r[i] in tags && r[j] in tags;
        if tags[0].id != id && i == 0 {
          assert r[j] in tags[1..];
        }
      }
      forall i | 0 <= i < |r| ensures 1 <= r[i].id < next {
        assert r[i] in tags;
      }
    }
  }

  lemma TagDeleteValid(db: Db, id: int)
    requires Valid(db) && TagDelete(db, id).Success?
    ensures Valid(TagDelete(db, id).value.0)
  {
    DeleteTagRowsKeys(db.tags, id, db.nextTagId);
  }
}
