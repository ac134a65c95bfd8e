/** adapters/sqlite.rs: `Repo`, the handle on the database, implementing
    the bookmark and tag repositories. The database is the object's state;
    the loops of `batch_create` and `create` run on a transaction's working
    copy (a `Tx` value) and only `commit` writes it back. */
module Sqlite {
  import opened Wrappers
  import opened Url
  import opened Tags
  import opened Bookmarks
  import Store
  import opened Transactions

  /** The inner loop of `batch_create` (sqlite.rs:169-211): for each name,
      get-or-create the tag, link it to bookmark `bid`, and collect it. */
  method LinkTags(tx0: Tx, bid: int, names: seq<string>, faults: set<nat>)
    returns (r: Result<(Tx, seq<Tag>), Error>)
    ensures r == TagsFold(tx0, bid, names, faults)
  {
    var tx := tx0;
    var tags: seq<Tag> := [];
    for i := 0 to |names|
      invariant TagsFold(tx0, bid, names[..i], faults) == Success((tx, tags))
    {
      assert names[..i + 1][..i] == names[..i];
      var (tx1, found) := SelectTagByName(tx, names[i], faults);
      var tag: Tag;
      if found.Some? {
        tx, tag := tx1, found.value;
      } else {
        var inserted := InsertTag(tx1, names[i], faults);
        if inserted.Failure? {
          TagsFoldFailurePrefix(tx0, bid, names, i + 1, faults);
          return Failure(inserted.error);
        }
        tx, tag := inserted.value.0, inserted.value.1;
      }
      var linked := InsertLink(tx, bid, tag.id, faults);
      if linked.Failure? {
        TagsFoldFailurePrefix(tx0, bid, names, i + 1, faults);
        return Failure(linked.error);
      }
      tx := linked.value;
      tags := tags + [tag];
    }
    assert names[..|names|] == names;
    return Success((tx, tags));
  }

  /** The outer loop of `batch_create` (sqlite.rs:152-220): insert each
      bookmark, link its tags, and collect the `Bookmark`. */
  method InsertItems(tx0: Tx, ps: seq<NewBookmarkParams>, faults: set<nat>)
    returns (r: Result<(Tx, seq<Bookmark>), Error>)
    ensures r == ItemsFold(tx0, ps, faults)
  {
    var tx := tx0;
    var bookmarks: seq<Bookmark> := [];
    for i := 0 to |ps|
      invariant ItemsFold(tx0, ps[..i], faults) == Success((tx, bookmarks))
    {
      assert ps[..i + 1][..i] == ps[..i];
      var p := ps[i];
      var url := Serialize(p.url);
      var inserted := InsertBookmark(tx, p.title, url, faults);
      if inserted.Failure? {
        ItemsFoldFailurePrefix(tx0, ps, i + 1, faults);
        return Failure(inserted.error);
      }
      var row := inserted.value.1;
      var linked := LinkTags(inserted.value.0, row.id, p.tags, faults);
      if linked.Failure? {
        ItemsFoldFailurePrefix(tx0, ps, i + 1, faults);
        return Failure(linked.error);
      }
      ParseSerialize(p.url);
      var bmark := NewBookmark(row.id, row.title, row.url, Some(linked.value.1));
      tx := linked.value.0;
      bookmarks := bookmarks + [bmark];
    }
    assert ps[..|ps|] == ps;
    return Success((tx, bookmarks));
  }

  /** The loop of `create` (sqlite.rs:248-262): one junction row per tag. */
  method InsertLinks(tx0: Tx, bid: int, ts: seq<Tag>, faults: set<nat>) returns (r: Result<Tx, Error>)
    ensures r == LinksFold(tx0, bid, ts, faults)
  {
    var tx := tx0;
    for i := 0 to |ts|
      invariant LinksFold(tx0, bid, ts[..i], faults) == Success(tx)
    {
      assert ts[..i + 1][..i] == ts[..i];
      var linked := InsertLink(tx, bid, ts[i].id, faults);
      if linked.Failure? {
        LinksFoldFailurePrefix(tx0, bid, ts, i + 1, faults);
        return Failure(linked.error);
      }
      tx := linked.value;
    }
    assert ts[..|ts|] == ts;
    return Success(tx);
  }

  class Repo {
    /** The database behind the pool. */
    var db: Store.Db

    predicate Valid()
      reads this
    {
      Store.Valid(db)
    }

    /** A repository over a freshly migrated, empty database. */
    constructor ()
      ensures Valid() && db == Store.Empty
    {
      db := Store.Empty;
    }

    /** `BookmarkRepo::fetch_all` (sqlite.rs:55-144). */
    method FetchAll(filter: seq<Tag>) returns (bs: seq<Bookmark>)
      requires Valid()
      ensures bs == Store.QueryBookmarks(db, filter)
    {
      var rows := Store.Aggregate(db);
      rows := Store.FilterRows(rows, filter);
      bs := Store.MaterializeAll(rows);
    }

    /** `BookmarkRepo::batch_create` (sqlite.rs:146-224): all items in one
        transaction; on any failure the database is left as it was. */
    method BatchCreate(ps: seq<NewBookmarkParams>, faults: set<nat>) returns (r: Result<seq<Bookmark>, Error>)
      requires Valid()
      modifies this
      ensures Valid()
      ensures match Transactions.BatchCreate(old(db), ps, faults)
              case Success(v) => r == Success(v.1) && db == v.0
              case Failure(e) => r == Failure(e) && db == old(db)
    {
      var begun := Begin(db, faults);
      if begun.Failure? {
        return Failure(begun.error);
      }
      var done := InsertItems(begun.value, ps, faults);
      if done.Failure? {
        return Failure(done.error);
      }
      var committed := Commit(done.value.0, faults);
      if committed.Failure? {
        return Failure(committed.error);
      }
      BatchCreateShape(db, ps, faults);
      db := committed.value;
      return Success(done.value.1);
    }

    /** `BookmarkRepo::create` (sqlite.rs:226-272). */
    method Create(title: Option<string>, url: Url, tags: Option<seq<Tag>>, faults: set<nat>)
      returns (r: Result<Bookmark, Error>)
      requires Valid()
      modifies this
      ensures Valid()
      ensures match Transactions.Create(old(db), title, url, tags, faults)
              case Success(v) => r == Success(v.1) && db == v.0
              case Failure(e) => r == Failure(e) && db == old(db)
    {
      var begun := Begin(db, faults);
      if begun.Failure? {
        return Failure(begun.error);
      }
      var inserted := InsertBookmark(begun.value, title, Serialize(url), faults);
      if inserted.Failure? {
        return Failure(inserted.error);
      }
      var row := inserted.value.1;
      var tx := inserted.value.0;
      if tags.Some? {
        var linked := InsertLinks(tx, row.id, tags.value, faults);
        if linked.Failure? {
          return Failure(linked.error);
        }
        tx := linked.value;
      }
      var committed := Commit(tx, faults);
      if committed.Failure? {
        return Failure(committed.error);
      }
      CreateShape(db, title, url, tags, faults);
      ParseSerialize(url);
      db := committed.value;
      return Success(NewBookmark(row.id, row.title, row.url, tags));
    }

    /** `BookmarkRepo::delete` (sqlite.rs:274-286): never an error. */
    method Delete(id: int) returns (r: Status)
      requires Valid()
      modifies this
      ensures Valid() && r == Ok && db == Store.Delete(old(db), id)
    {
      Store.DeleteValid(db, id);
      db := Store.Delete(db, id);
      return Ok;
    }

    /** `TagsRepo::fetch_all` (sqlite.rs:291-303): the tag table in row order. */
    method TagsFetchAll() returns (ts: seq<Tag>)
      requires Valid()
      ensures ts == db.tags
    {
      ts := db.tags;
    }

    /** `TagsRepo::create` (sqlite.rs:305-320). */
    method TagsCreate(name: string, refused: bool) returns (r: Result<Tag, Error>)
      requires Valid()
      modifies this
      ensures Valid()
      ensures match Store.TagCreate(old(db), name, refused)
              case Success(v) => r == Success(v.1) && db == v.0
              case Failure(e) => r == Failure(e) && db == old(db)
    {
      var created := Store.TagCreate(db, name, refused);
      if created.Failure? {
        return Failure(created.error);
      }
      Store.TagCreateValid(db, name, refused);
      db := created.value.0;
      return Success(created.value.1);
    }

    /** `TagsRepo::get` (sqlite.rs:322-336). */
    method TagsGet(id: int) returns (r: Result<Tag, Error>)
      requires Valid()
      ensures r == Store.TagById(db.tags, id)
    {
      r := Store.TagById(db.tags, id);
    }

    /** `TagsRepo::get_by_name` (sqlite.rs:338-352). */
    method TagsGetByName(name: string) returns (r: Result<Tag, Error>)
      requires Valid()
      ensures r == Store.TagByName(db.tags, name)
    {
      r := Store.TagByName(db.tags, name);
    }

    /** `TagsRepo::delete` (sqlite.rs:354-368): returns the removed row. */
    method TagsDelete(id: int) returns (r: Result<Tag, Error>)
      requires Valid()
      modifies this
      ensures Valid()
      ensures match Store.TagDelete(old(db), id)
              case Success(v) => r == Success(v.1) && db == v.0
              case Failure(e) => r == Failure(e) && db == old(db)
    {
      var deleted := Store.TagDelete(db, id);
      if deleted.Failure? {
        return Failure(deleted.error);
      }
      Store.TagDeleteValid(db, id);
      db := deleted.value.0;
      return Success(deleted.value.1);
    }
  }
}
