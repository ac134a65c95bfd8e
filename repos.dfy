/** models/bookmarks.rs:71-93 and models/tags.rs:16-34: the associated
    functions of `Bookmark` and `Tag` that hand their arguments to a
    repository and return its answer unchanged. The `Repo` traits have one
    implementation, `Sqlite.Repo`, which is what they take here. */
module Repos {
  import opened Wrappers
  import opened Url
  import opened Tags
  import opened Bookmarks
  import Store
  import Transactions
  import opened Sqlite

  /** `Bookmark::fetch_all`. */
  method FetchAll(repo: Repo, filter: seq<Tag>) returns (bs: seq<Bookmark>)
    requires repo.Valid()
    ensures bs == Store.QueryBookmarks(repo.db, filter)
  {
    bs := repo.FetchAll(filter);
  }

  /** `Bookmark::create`. */
  method Create(repo: Repo, title: Option<string>, url: Url, tags: Option<seq<Tag>>, faults: set<nat>)
    returns (r: Result<Bookmark, Error>)
    requires repo.Valid()
    modifies repo
    ensures repo.Valid()
    ensures match Transactions.Create(old(repo.db), title, url, tags, faults)
            case Success(v) => r == Success(v.1) && repo.db == v.0
            case Failure(e) => r == Failure(e) && repo.db == old(repo.db)
  {
    r := repo.Create(title, url, tags, faults);
  }

  /** `Bookmark::batch_create`. */
  method BatchCreate(repo: Repo, ps: seq<NewBookmarkParams>, faults: set<nat>)
    returns (r: Result<seq<Bookmark>, Error>)
    requires repo.Valid()
    modifies repo
    ensures repo.Valid()
    ensures match Transactions.BatchCreate(old(repo.db), ps, faults)
            case Success(v) => r == Success(v.1) && repo.db == v.0
            case Failure(e) => r == Failure(e) && repo.db == old(repo.db)
  {
    r := repo.BatchCreate(ps, faults);
  }

  /** `Bookmark::delete`. */
  method Delete(repo: Repo, id: int) returns (r: Status)
    requires repo.Valid()
    modifies repo
    ensures repo.Valid() && r == Ok && repo.db == Store.Delete(old(repo.db), id)
  {
    r := repo.Delete(id);
  }

  /** `Tag::fetch_all`. */
  method TagFetchAll(repo: Repo) returns (ts: seq<Tag>)
    requires repo.Valid()
    ensures ts == repo.db.tags
  {
    ts := repo.TagsFetchAll();
  }

  /** `Tag::create`. */
  method TagCreate(repo: Repo, name: string, refused: bool) returns (r: Result<Tag, Error>)
    requires repo.Valid()
    modifies repo
    ensures repo.Valid()
    ensures match Store.TagCreate(old(repo.db), name, refused)
            case Success(v) => r == Success(v.1) && repo.db == v.0
            case Failure(e) => r == Failure(e) && repo.db == old(repo.db)
  {
    r := repo.TagsCreate(name, refused);
  }

  /** `Tag::get`. */
  method TagGet(repo: Repo, id: int) returns (r: Result<Tag, Error>)
    requires repo.Valid()
    ensures r == Store.TagById(repo.db.tags, id)
  {
    r := repo.TagsGet(id);
  }

  /** `Tag::get_by_name`. */
  method TagGetByName(repo: Repo, name: string) returns (r: Result<Tag, Error>)
    requires repo.Valid()
    ensures r == Store.TagByName(repo.db.tags, name)
  {
    r := repo.TagsGetByName(name);
  }

  /** `Tag::delete`: the removed tag. */
  method TagDelete(repo: Repo, id: int) returns (r: Result<Tag, Error>)
    requires repo.Valid()
    modifies repo
    ensures repo.Valid()
    ensures match Store.TagDelete(old(repo.db), id)
            case Success(v) => r == Success(v.1) && repo.db == v.0
            case Failure(e) => r == Failure(e) && repo.db == old(repo.db)
  {
    r := repo.TagsDelete(id);
  }
}
