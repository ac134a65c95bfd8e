/** adapters/sqlite.rs:146-272: the statements `batch_create` and `create`
    issue inside one transaction, as functions on the transaction's working
    copy of the database. Nothing reaches the database unless `Commit`
    succeeds; a failure anywhere before it discards the working copy.

    Whether a statement fails is decided by the database and the I/O
    beneath it, not by this code. The set `faults` names the positions of
    the statements that fail, counting `begin` as statement 0. Inserts
    also fail, whatever `faults` says, once a table runs out of `i64`
    keys. */
module Transactions {
  import opened Wrappers
  import opened Text
  import opened Url
  import opened Tags
  import opened Bookmarks
  import opened Store

  /** An open transaction: its working copy and the next statement's position. */
  datatype Tx = Tx(db: Db, step: nat)

  /** `pool.begin()`. */
  function Begin(db: Db, faults: set<nat>): Result<Tx, Error> {
    if 0 in faults then Failure(StatementFailed) else Success(Tx(db, 1))
  }

  /** `INSERT INTO bookmarks ... RETURNING id, title, url`. */
  function InsertBookmark(tx: Tx, title: Option<string>, url: string, faults: set<nat>): Result<(Tx, BookmarkRow), Error> {
    if tx.step in faults || tx.db.nextBookmarkId > I64_MAX then Failure(StatementFailed)
    else
      var row := BookmarkRow(tx.db.nextBookmarkId, title, url);
      Success((Tx(tx.db.(bookmarks := tx.db.bookmarks + [row], nextBookmarkId := row.id + 1), tx.step + 1), row))
  }

  /** The lookup half of get-or-create. A failed lookup reads as "no such
      tag", because its error is discarded by `if let Ok(..)`. */
  function SelectTagByName(tx: Tx, name: string, faults: set<nat>): (Tx, Option<Tag>) {
    var found :=
      if tx.step in faults then None
      else match TagByName(tx.db.tags, name)
        case Success(t) => Some(t)
        case Failure(_) => None;
    (tx.(step := tx.step + 1), found)
  }

  /** `INSERT INTO tags (name) ... RETURNING id, name`. */
  function InsertTag(tx: Tx, name: string, faults: set<nat>): Result<(Tx, Tag), Error> {
    if tx.step in faults || tx.db.nextTagId > I64_MAX then Failure(StatementFailed)
    else
      var t := Tag(tx.db.nextTagId, name);
      Success((Tx(tx.db.(tags := tx.db.tags + [t], nextTagId := t.id + 1), tx.step + 1), t))
  }

  /** `INSERT INTO bmarks_tags (bookmark_id, tag_id)`. */
  function InsertLink(tx: Tx, bid: int, tid: int, faults: set<nat>): Result<Tx, Error> {
    if tx.step in faults then Failure(StatementFailed)
    else Success(Tx(tx.db.(links := tx.db.links + [Link(bid, tid)]), tx.step + 1))
  }

  /** `tx.commit()`: the working copy becomes the database. */
  function Commit(tx: Tx, faults: set<nat>): Result<Db, Error> {
    if tx.step in faults then Failure(StatementFailed) else Success(tx.db)
  }

  /** The junction rows linking bookmark `bid` to each tag of `ts`, in order. */
  function LinksTo(bid: int, ts: seq<Tag>): (r: seq<Link>)
    ensures |r| == |ts| && forall i :: 0 <= i < |ts| ==> r[i] == Link(bid, ts[i].id)
  {
    seq(|ts|, i requires 0 <= i < |ts| => Link(bid, ts[i].id))
  }

  // ---------------------------------------------------------------------
  // batch_create (sqlite.rs:146-224)

  /** Get-or-create by name (sqlite.rs:170-196): the first tag with that
      name is reused; otherwise a new row is inserted. */
  function GetOrCreateTag(tx: Tx, name: string, faults: set<nat>): (r: Result<(Tx, Tag), Error>)
    ensures r.Success? ==> r.value.1.name == name && r.value.1 in r.value.0.db.tags
    ensures tx.step !in faults && TagByName(tx.db.tags, name).Success? ==>
              r == Success((tx.(step := tx.step + 1), TagByName(tx.db.tags, name).value))
    ensures TagByName(tx.db.tags, name).Failure? ==> r == InsertTag(tx.(step := tx.step + 1), name, faults)
  {
    var (tx1, found) := SelectTagByName(tx, name, faults);
    if found.Some? then Success((tx1, found.value)) else InsertTag(tx1, name, faults)
  }

  /** One pass of the inner loop: get-or-create the tag, then link it. */
  function LinkTag(tx: Tx, bid: int, name: string, faults: set<nat>): Result<(Tx, Tag), Error> {
    var got :- GetOrCreateTag(tx, name, faults);
    var tx2 :- InsertLink(got.0, bid, got.1.id, faults);
    Success((tx2, got.1))
  }

  /** The inner loop over one item's tag names, in order. */
  function TagsFold(tx: Tx, bid: int, names: seq<string>, faults: set<nat>): Result<(Tx, seq<Tag>), Error>
    decreases |names|
  {
    if names == [] then Success((tx, []))
    else
      var prev :- TagsFold(tx, bid, names[..|names| - 1], faults);
      var next :- LinkTag(prev.0, bid, names[|names| - 1], faults);
      Success((next.0, prev.1 + [next.1]))
  }

  /** One pass of the outer loop: insert the bookmark, link its tags, and
      build the returned `Bookmark` with `Some(tags)`. */
  function ItemStep(tx: Tx, p: NewBookmarkParams, faults: set<nat>): Result<(Tx, Bookmark), Error> {
    var ins :- InsertBookmark(tx, p.title, Serialize(p.url), faults);
    var linked :- TagsFold(ins.0, ins.1.id, p.tags, faults);
    ParseSerialize(p.url);
    Success((linked.0, NewBookmark(ins.1.id, ins.1.title, ins.1.url, Some(linked.1))))
  }

  /** The outer loop over the items, in order. */
  function ItemsFold(tx: Tx, ps: seq<NewBookmarkParams>, faults: set<nat>): Result<(Tx, seq<Bookmark>), Error>
    decreases |ps|
  {
    if ps == [] then Success((tx, []))
    else
      var prev :- ItemsFold(tx, ps[..|ps| - 1], faults);
      var next :- ItemStep(prev.0, ps[|ps| - 1], faults);
      Success((next.0, prev.1 + [next.1]))
  }

  /** `BookmarkRepo::batch_create`: the new database and the created bookmarks. */
  function BatchCreate(db: Db, ps: seq<NewBookmarkParams>, faults: set<nat>): Result<(Db, seq<Bookmark>), Error> {
    var tx :- Begin(db, faults);
    var done :- ItemsFold(tx, ps, faults);
    var db2 :- Commit(done.0, faults);
    Success((db2, done.1))
  }

  // ---------------------------------------------------------------------
  // create (sqlite.rs:226-272)

  /** The loop inserting one junction row per given tag; no tag is looked
      up or created. */
  function LinksFold(tx: Tx, bid: int, ts: seq<Tag>, faults: set<nat>): Result<Tx, Error>
    decreases |ts|
  {
    if ts == [] then Success(tx)
    else
      var prev :- LinksFold(tx, bid, ts[..|ts| - 1], faults);
      InsertLink(prev, bid, ts[|ts| - 1].id, faults)
  }

  /** The junction rows `create` inserts: none when `tags` is `None`. */
  function CreateLinks(tx: Tx, bid: int, tags: Option<seq<Tag>>, faults: set<nat>): Result<Tx, Error> {
    match tags
    case None => Success(tx)
    case Some(ts) => LinksFold(tx, bid, ts, faults)
  }

  /** `BookmarkRepo::create`: the new database and the created bookmark,
      which carries `tags` exactly as given. */
  function Create(db: Db, title: Option<string>, url: Url, tags: Option<seq<Tag>>, faults: set<nat>): Result<(Db, Bookmark), Error> {
    var tx :- Begin(db, faults);
    var ins :- InsertBookmark(tx, title, Serialize(url), faults);
    var tx2 :- CreateLinks(ins.0, ins.1.id, tags, faults);
    var db2 :- Commit(tx2, faults);
    ParseSerialize(url);
    Success((db2, NewBookmark(ins.1.id, ins.1.title, ins.1.url, tags)))
  }

  // ---------------------------------------------------------------------
  // A failure ends the loop: whatever follows, the whole fails with it

  lemma {:induction false} TagsFoldFailurePrefix(tx: Tx, bid: int, names: seq<string>, k: nat, faults: set<nat>)
    requires k <= |names| && TagsFold(tx, bid, names[..k], faults).Failure?
    ensures TagsFold(tx, bid, names, faults) == Failure(TagsFold(tx, bid, names[..k], faults).error)
  {
    if k < |names| {
      assert names[..|names| - 1][..k] == names[..k];
      TagsFoldFailurePrefix(tx, bid, names[..|names| - 1], k, faults);
    } else {
      assert names[..k] == names;
    }
  }

  lemma {:induction false} ItemsFoldFailurePrefix(tx: Tx, ps: seq<NewBookmarkParams>, k: nat, faults: set<nat>)
    requires k <= |ps| && ItemsFold(tx, ps[..k], faults).Failure?
    ensures ItemsFold(tx, ps, faults) == Failure(ItemsFold(tx, ps[..k], faults).error)
  {
    if k < |ps| {
      assert ps[..|ps| - 1][..k] == ps[..k];
      ItemsFoldFailurePrefix(tx, ps[..|ps| - 1], k, faults);
    } else {
      assert ps[..k] == ps;
    }
  }

  lemma {:induction false} LinksFoldFailurePrefix(tx: Tx, bid: int, ts: seq<Tag>, k: nat, faults: set<nat>)
    requires k <= |ts| && LinksFold(tx, bid, ts[..k], faults).Failure?
    ensures LinksFold(tx, bid, ts, faults) == Failure(LinksFold(tx, bid, ts[..k], faults).error)
  {
    if k < |ts| {
      assert ts[..|ts| - 1][..k] == ts[..k];
      LinksFoldFailurePrefix(tx, bid, ts[..|ts| - 1], k, faults);
    } else {
      assert ts[..k] == ts;
    }
  }

  // ---------------------------------------------------------------------
  // What the inner loop does to the working copy

  /** The working copy after `d2` is `d1` with some tags appended and
      `links` linking `bid`, and nothing else changed. */
  predicate TagSide(d1: Db, d2: Db, bid: int, ts: seq<Tag>) {
    d2.bookmarks == d1.bookmarks && d2.nextBookmarkId == d1.nextBookmarkId &&
    d2.links == d1.links + LinksTo(bid, ts) &&
    d1.tags <= d2.tags && d2.nextTagId - d1.nextTagId == |d2.tags| - |d1.tags|
  }

  lemma LinkTagShape(tx: Tx, bid: int, name: string, faults: set<nat>)
    requires Valid(tx.db) && bid < tx.db.nextBookmarkId
    requires LinkTag(tx, bid, name, faults).Success?
    ensures var tx2, t := LinkTag(tx, bid, name, faults).value.0, LinkTag(tx, bid, name, faults).value.1;
            Valid(tx2.db) && TagSide(tx.db, tx2.db, bid, [t]) && t.name == name && t in tx2.db.tags &&
            tx2.db.nextTagId <= tx.db.nextTagId + 1 && tx2.step >= tx.step + 2
  {
    var got := GetOrCreateTag(tx, name, faults).value;
    if got.0.db != tx.db {
      assert got.0.db.tags == tx.db.tags + [got.1];
    }
  }

  /** What a successful inner loop over `names` returns and leaves: one tag
      per name, named as it and present in the table, linked in order. */
  predicate TagsFoldPost(d1: Db, bid: int, names: seq<string>, d2: Db, ts: seq<Tag>) {
    TagSide(d1, d2, bid, ts) && |ts| == |names| &&
    (forall i :: 0 <= i < |ts| ==> ts[i].name == names[i] && ts[i] in d2.tags) &&
    d2.nextTagId <= d1.nextTagId + |names|
  }

  lemma TagsFoldPostStep(d1: Db, d2: Db, d3: Db, bid: int, init: seq<string>, ts: seq<Tag>, t: Tag)
    requires TagsFoldPost(d1, bid, init, d2, ts)
    requires TagSide(d2, d3, bid, [t]) && t in d3.tags && d3.nextTagId <= d2.nextTagId + 1
    ensures TagsFoldPost(d1, bid, init + [t.name], d3, ts + [t])
  {
    assert LinksTo(bid, ts + [t]) == LinksTo(bid, ts) + LinksTo(bid, [t]);
    forall i | 0 <= i < |ts| ensures ts[i] in d3.tags {
      assert ts[i] in d2.tags;
    }
  }

  /** A successful inner loop over a non-empty list is a successful loop
      over all names but the last, followed by one pass for the last. */
  lemma TagsFoldLast(tx: Tx, bid: int, names: seq<string>, faults: set<nat>)
    requires names != [] && TagsFold(tx, bid, names, faults).Success?
    ensures var prev := TagsFold(tx, bid, names[..|names| - 1], faults);
            prev.Success? && LinkTag(prev.value.0, bid, names[|names| - 1], faults).Success? &&
            var next := LinkTag(prev.value.0, bid, names[|names| - 1], faults).value;
            TagsFold(tx, bid, names, faults).value == (next.0, prev.value.1 + [next.1])
  {
  }

  /** The inner loop's summary from `tx` to `r`, with the invariant kept
      and two statements per name. */
  predicate TagsFoldOk(tx: Tx, bid: int, names: seq<string>, r: (Tx, seq<Tag>)) {
    Valid(r.0.db) && TagsFoldPost(tx.db, bid, names, r.0.db, r.1) && r.0.step >= tx.step + 2 * |names|
  }

  /** One more pass of the inner loop, for the last name, keeps the loop's summary. */
  lemma TagsFoldShapeStep(tx: Tx, prev: (Tx, seq<Tag>), bid: int, names: seq<string>, faults: set<nat>)
    requires names != [] && Valid(tx.db) && bid < tx.db.nextBookmarkId
    requires TagsFoldOk(tx, bid, names[..|names| - 1], prev)
    requires LinkTag(prev.0, bid, names[|names| - 1], faults).Success?
    ensures var next := LinkTag(prev.0, bid, names[|names| - 1], faults).value;
            TagsFoldOk(tx, bid, names, (next.0, prev.1 + [next.1]))
  {
    var init, last := names[..|names| - 1], names[|names| - 1];
    LinkTagShape(prev.0, bid, last, faults);
    var next := LinkTag(prev.0, bid, last, faults).value;
    TagsFoldPostStep(tx.db, prev.0.db, next.0.db, bid, init, prev.1, next.1);
    assert init + [last] == names;
  }

  lemma {:induction false} TagsFoldOkAll(tx: Tx, bid: int, names: seq<string>, faults: set<nat>)
    requires Valid(tx.db) && bid < tx.db.nextBookmarkId
    requires TagsFold(tx, bid, names, faults).Success?
    ensures TagsFoldOk(tx, bid, names, TagsFold(tx, bid, names, faults).value)
    decreases |names|
  {
    if names != [] {
      TagsFoldLast(tx, bid, names, faults);
      TagsFoldOkAll(tx, bid, names[..|names| - 1], faults);
      TagsFoldShapeStep(tx, TagsFold(tx, bid, names[..|names| - 1], faults).value, bid, names, faults);
    } else {
      assert LinksTo(bid, []) == [];
    }
  }

  lemma TagsFoldShape(tx: Tx, bid: int, names: seq<string>, faults: set<nat>)
    requires Valid(tx.db) && bid < tx.db.nextBookmarkId
    requires TagsFold(tx, bid, names, faults).Success?
    ensures var r := TagsFold(tx, bid, names, faults).value;
            Valid(r.0.db) && TagsFoldPost(tx.db, bid, names, r.0.db, r.1) && r.0.step >= tx.step + 2 * |names|
  {
    TagsFoldOkAll(tx, bid, names, faults);
  }

  /** With no failing statement and keys to spare, the inner loop succeeds. */
  lemma {:induction false} TagsFoldTotal(tx: Tx, bid: int, names: seq<string>)
    requires Valid(tx.db) && bid < tx.db.nextBookmarkId
    requires tx.db.nextTagId + |names| <= I64_MAX + 1
    ensures TagsFold(tx, bid, names, {}).Success?
    decreases |names|
  {
    if names != [] {
      var init := names[..|names| - 1];
      TagsFoldTotal(tx, bid, init);
      TagsFoldShape(tx, bid, init, {});
    }
  }

  /** A tag appended under a name no row had yet is what a lookup of that
      name finds. */
  lemma {:induction false} TagByNameAppendNew(tags: seq<Tag>, t: Tag)
    requires TagByName(tags, t.name).Failure?
    ensures TagByName(tags + [t], t.name) == Success(t)
  {
    if tags != [] {
      assert (tags + [t])[1..] == tags[1..] + [t];
      TagByNameAppendNew(tags[1..], t);
    } else {
      assert tags + [t] == [t];
    }
  }

  /** After one pass of the inner loop for `name`, the table holds a tag
      with that name, and it is the one a later lookup finds. */
  lemma LinkTagFindsAgain(tx: Tx, bid: int, name: string)
    requires Valid(tx.db) && bid < tx.db.nextBookmarkId && LinkTag(tx, bid, name, {}).Success?
    ensures var first := LinkTag(tx, bid, name, {}).value;
            TagByName(first.0.db.tags, name) == Success(first.1)
  {
    LinkTagShape(tx, bid, name, {});
    var first := LinkTag(tx, bid, name, {}).value;
    if TagByName(tx.db.tags, name).Success? {
      assert first.0.db.tags == tx.db.tags;
    } else {
      assert first.0.db.tags == tx.db.tags + [first.1];
      TagByNameAppendNew(tx.db.tags, first.1);
    }
  }

  /** A name repeated within one item's tags is looked up, not inserted,
      the second time: one tag row, two junction rows, the same tag twice. */
  lemma RepeatedNameOneRow(tx: Tx, bid: int, name: string)
    requires Valid(tx.db) && bid < tx.db.nextBookmarkId
    requires TagsFold(tx, bid, [name, name], {}).Success?
    ensures var tx2, ts := TagsFold(tx, bid, [name, name], {}).value.0, TagsFold(tx, bid, [name, name], {}).value.1;
            |tx2.db.tags| <= |tx.db.tags| + 1 && |tx2.db.links| == |tx.db.links| + 2 &&
            |ts| == 2 && ts[0] == ts[1]
  {
    assert [name, name][..1] == [name];
    assert [name][..0] == [];
    var one := TagsFold(tx, bid, [name], {});
    assert TagsFold(tx, bid, [], {}) == Success((tx, []));
    assert one.Success?;
    assert LinkTag(tx, bid, name, {}).Success?;
    var first := LinkTag(tx, bid, name, {}).value;
    assert [] + [first.1] == [first.1];
    assert one.value == (first.0, [first.1]);
    LinkTagShape(tx, bid, name, {});
    LinkTagFindsAgain(tx, bid, name);
    LinkTagShape(first.0, bid, name, {});
    var second := LinkTag(first.0, bid, name, {}).value;
    assert second.1 == first.1 && second.0.db.tags == first.0.db.tags;
    assert [first.1] + [second.1] == [first.1, second.1];
    assert TagsFold(tx, bid, [name, name], {}) == Success((second.0, [first.1] + [second.1]));
  }

  // ---------------------------------------------------------------------
  // What the outer loop does

  /** The bookmark rows `batch_create` inserts, with consecutive keys from `first`. */
  function BatchRows(first: int, ps: seq<NewBookmarkParams>): (r: seq<BookmarkRow>)
    ensures |r| == |ps|
    ensures forall i :: 0 <= i < |ps| ==> r[i] == BookmarkRow(first + i, ps[i].title, Serialize(ps[i].url))
  {
    seq(|ps|, i requires 0 <= i < |ps| => BookmarkRow(first + i, ps[i].title, Serialize(ps[i].url)))
  }

  /** The number of tag names over all items. */
  function TotalNames(ps: seq<NewBookmarkParams>): nat
    decreases |ps|
  {
    if ps == [] then 0 else TotalNames(ps[..|ps| - 1]) + |ps[|ps| - 1].tags|
  }

  /** Each created bookmark mirrors its item: key `first + i`, the item's
      title and URL, and `Some` tags named as the item's names, in order. */
  predicate Mirrors(b: Bookmark, p: NewBookmarkParams, id: int) {
    b.id == id && b.title == p.title && b.url.inner == p.url && b.tags.Some? &&
    |b.tags.value| == |p.tags| &&
    forall j :: 0 <= j < |p.tags| ==> b.tags.value[j].name == p.tags[j]
  }

  lemma InsertBookmarkValid(tx: Tx, title: Option<string>, url: string, faults: set<nat>)
    requires Valid(tx.db) && Parse(url).Some? && InsertBookmark(tx, title, url, faults).Success?
    ensures Valid(InsertBookmark(tx, title, url, faults).value.0.db)
  {
  }

  lemma ItemStepShape(tx: Tx, p: NewBookmarkParams, faults: set<nat>)
    requires Valid(tx.db) && ItemStep(tx, p, faults).Success?
    ensures var tx2, b := ItemStep(tx, p, faults).value.0, ItemStep(tx, p, faults).value.1;
            Valid(tx2.db) && Mirrors(b, p, tx.db.nextBookmarkId) &&
            tx2.db.bookmarks == tx.db.bookmarks + [BookmarkRow(b.id, p.title, Serialize(p.url))] &&
            tx2.db.nextBookmarkId == tx.db.nextBookmarkId + 1 &&
            tx.db.nextTagId <= tx2.db.nextTagId <= tx.db.nextTagId + |p.tags| &&
            |tx2.db.links| == |tx.db.links| + |p.tags| &&
            tx2.db.links == tx.db.links + LinksTo(b.id, b.tags.value)
  {
    ParseSerialize(p.url);
    var ins := InsertBookmark(tx, p.title, Serialize(p.url), faults).value;
    assert Valid(ins.0.db);
    TagsFoldShape(ins.0, ins.1.id, p.tags, faults);
  }

  /** The junction rows linking each bookmark of `bs` to its tags, in
      bookmark order and, within one bookmark, in tag order. */
  function BatchLinks(bs: seq<Bookmark>): seq<Link>
    decreases |bs|
  {
    if bs == [] then []
    else
      var b := bs[|bs| - 1];
      BatchLinks(bs[..|bs| - 1]) + (if b.tags.Some? then LinksTo(b.id, b.tags.value) else [])
  }

  /** What a successful outer loop over `ps` returns and leaves. */
  predicate ItemsFoldPost(d1: Db, ps: seq<NewBookmarkParams>, d2: Db, bs: seq<Bookmark>) {
    |bs| == |ps| &&
    (forall i :: 0 <= i < |ps| ==> Mirrors(bs[i], ps[i], d1.nextBookmarkId + i)) &&
    d2.bookmarks == d1.bookmarks + BatchRows(d1.nextBookmarkId, ps) &&
    d2.nextBookmarkId == d1.nextBookmarkId + |ps| &&
    d1.nextTagId <= d2.nextTagId <= d1.nextTagId + TotalNames(ps) &&
    |d2.links| == |d1.links| + TotalNames(ps)
  }

  lemma ItemsFoldPostStep(d1: Db, d2: Db, d3: Db, init: seq<NewBookmarkParams>, bs: seq<Bookmark>,
                          p: NewBookmarkParams, b: Bookmark)
    requires ItemsFoldPost(d1, init, d2, bs)
    requires Mirrors(b, p, d2.nextBookmarkId)
    requires d3.bookmarks == d2.bookmarks + [BookmarkRow(b.id, p.title, Serialize(p.url))]
    requires d3.nextBookmarkId == d2.nextBookmarkId + 1
    requires d2.nextTagId <= d3.nextTagId <= d2.nextTagId + |p.tags|
    requires |d3.links| == |d2.links| + |p.tags|
    ensures ItemsFoldPost(d1, init + [p], d3, bs + [b])
  {
    var ps := init + [p];
    assert ps[..|ps| - 1] == init;
    assert BatchRows(d1.nextBookmarkId, ps) ==
           BatchRows(d1.nextBookmarkId, init) + [BookmarkRow(b.id, p.title, Serialize(p.url))];
  }

  lemma BatchLinksSnoc(l1: seq<Link>, l2: seq<Link>, l3: seq<Link>, bs: seq<Bookmark>, b: Bookmark)
    requires b.tags.Some? && l2 == l1 + BatchLinks(bs) && l3 == l2 + LinksTo(b.id, b.tags.value)
    ensures l3 == l1 + BatchLinks(bs + [b])
  {
    assert (bs + [b])[..|bs|] == bs;
  }

  /** The outer loop appends exactly the junction rows of the bookmarks it
      returns, bookmark by bookmark, each in the order of its tags. */
  lemma {:induction false} ItemsFoldLinks(tx: Tx, ps: seq<NewBookmarkParams>, faults: set<nat>)
    requires Valid(tx.db) && ItemsFold(tx, ps, faults).Success?
    ensures var r := ItemsFold(tx, ps, faults).value;
            Valid(r.0.db) && r.0.db.links == tx.db.links + BatchLinks(r.1)
    decreases |ps|
  {
    if ps != [] {
      var init := ps[..|ps| - 1];
      ItemsFoldLinks(tx, init, faults);
      var prev := ItemsFold(tx, init, faults).value;
      ItemStepShape(prev.0, ps[|ps| - 1], faults);
      var next := ItemStep(prev.0, ps[|ps| - 1], faults).value;
      BatchLinksSnoc(tx.db.links, prev.0.db.links, next.0.db.links, prev.1, next.1);
    }
  }

  lemma {:induction false} ItemsFoldShape(tx: Tx, ps: seq<NewBookmarkParams>, faults: set<nat>)
    requires Valid(tx.db) && ItemsFold(tx, ps, faults).Success?
    ensures var r := ItemsFold(tx, ps, faults).value;
            Valid(r.0.db) && ItemsFoldPost(tx.db, ps, r.0.db, r.1)
    decreases |ps|
  {
    if ps != [] {
      var init := ps[..|ps| - 1];
      ItemsFoldShape(tx, init, faults);
      var prev := ItemsFold(tx, init, faults).value;
      ItemStepShape(prev.0, ps[|ps| - 1], faults);
      var next := ItemStep(prev.0, ps[|ps| - 1], faults).value;
      ItemsFoldPostStep(tx.db, prev.0.db, next.0.db, init, prev.1, ps[|ps| - 1], next.1);
      assert init + [ps[|ps| - 1]] == ps;
    } else {
      assert tx.db.bookmarks + BatchRows(tx.db.nextBookmarkId, ps) == tx.db.bookmarks;
    }
  }

  /** With no failing statement and keys to spare, every item is inserted. */
  lemma {:induction false} ItemsFoldTotal(tx: Tx, ps: seq<NewBookmarkParams>)
    requires Valid(tx.db)
    requires tx.db.nextBookmarkId + |ps| <= I64_MAX + 1
    requires tx.db.nextTagId + TotalNames(ps) <= I64_MAX + 1
    ensures ItemsFold(tx, ps, {}).Success?
    decreases |ps|
  {
    if ps != [] {
      var init := ps[..|ps| - 1];
      ItemsFoldTotal(tx, init);
      ItemsFoldShape(tx, init, {});
      var prev := ItemsFold(tx, init, {}).value;
      var p := ps[|ps| - 1];
      assert TotalNames(ps) == TotalNames(init) + |p.tags|;
      var ins := InsertBookmark(prev.0, p.title, Serialize(p.url), {});
      assert ins.Success?;
      ParseSerialize(p.url);
      InsertBookmarkValid(prev.0, p.title, Serialize(p.url), {});
      TagsFoldTotal(ins.value.0, ins.value.1.id, p.tags);
      assert ItemStep(prev.0, p, {}).Success?;
    }
  }

  /** `batch_create` returns one bookmark per item, in item order, each
      with fresh consecutive keys, the item's title and URL and its tags in
      the order of its names; it appends exactly those bookmark rows and
      one junction row per name, linking each new bookmark to each of its
      tags in order; the result keeps the invariant. */
  lemma BatchCreateShape(db: Db, ps: seq<NewBookmarkParams>, faults: set<nat>)
    requires Valid(db) && BatchCreate(db, ps, faults).Success?
    ensures var db2, bs := BatchCreate(db, ps, faults).value.0, BatchCreate(db, ps, faults).value.1;
            Valid(db2) && ItemsFoldPost(db, ps, db2, bs) && db2.links == db.links + BatchLinks(bs)
  {
    BatchCreateRows(db, ps, faults);
    BatchCreateLinks(db, ps, faults);
  }

  /** The bookmark part of `BatchCreateShape`. */
  lemma BatchCreateRows(db: Db, ps: seq<NewBookmarkParams>, faults: set<nat>)
    requires Valid(db) && BatchCreate(db, ps, faults).Success?
    ensures var r := BatchCreate(db, ps, faults).value;
            Valid(r.0) && ItemsFoldPost(db, ps, r.0, r.1)
  {
    ItemsFoldShape(Tx(db, 1), ps, faults);
  }

  /** The junction-row part of `BatchCreateShape`. */
  lemma BatchCreateLinks(db: Db, ps: seq<NewBookmarkParams>, faults: set<nat>)
    requires Valid(db) && BatchCreate(db, ps, faults).Success?
    ensures var r := BatchCreate(db, ps, faults).value;
            r.0.links == db.links + BatchLinks(r.1)
  {
    ItemsFoldLinks(Tx(db, 1), ps, faults);
  }

  /** With no failing statement and keys to spare, `batch_create` succeeds. */
  lemma BatchCreateTotal(db: Db, ps: seq<NewBookmarkParams>)
    requires Valid(db)
    requires db.nextBookmarkId + |ps| <= I64_MAX + 1 && db.nextTagId + TotalNames(ps) <= I64_MAX + 1
    ensures BatchCreate(db, ps, {}).Success?
  {
    ItemsFoldTotal(Tx(db, 1), ps);
    ItemsFoldShape(Tx(db, 1), ps, {});
  }

  // ---------------------------------------------------------------------
  // Get-or-create across the whole batch, when no statement fails

  /** Every tag of `ts` is what a lookup of its name in `tags` finds. */
  predicate Found(tags: seq<Tag>, ts: seq<Tag>) {
    forall i :: 0 <= i < |ts| ==> TagByName(tags, ts[i].name) == Success(ts[i])
  }

  /** `d2` extends `d1`, and each row it adds has a name no earlier row has. */
  predicate FreshNames(d1: seq<Tag>, d2: seq<Tag>) {
    d1 <= d2 &&
    forall i, j :: |d1| <= i < |d2| && 0 <= j < i ==> d2[j].name != d2[i].name
  }

  lemma FoundAppend(tags: seq<Tag>, more: seq<Tag>, ts: seq<Tag>)
    requires Found(tags, ts)
    ensures Found(tags + more, ts)
  {
    forall i | 0 <= i < |ts| ensures TagByName(tags + more, ts[i].name) == Success(ts[i]) {
      TagByNameAppend(tags, more, ts[i].name);
    }
  }

  lemma FreshNamesTrans(d1: seq<Tag>, d2: seq<Tag>, d3: seq<Tag>)
    requires FreshNames(d1, d2) && FreshNames(d2, d3)
    ensures FreshNames(d1, d3)
  {
    forall i, j | |d1| <= i < |d3| && 0 <= j < i ensures d3[j].name != d3[i].name {
      if i < |d2| {
        assert d3[i] == d2[i] && d3[j] == d2[j];
      }
    }
  }

  /** With no failing statement, one pass of the inner loop either reuses
      the tag its lookup finds or appends one row under a name no row has;
      either way the tag it returns is what a lookup of the name now finds. */
  lemma LinkTagNoFault(tx: Tx, bid: int, name: string)
    requires LinkTag(tx, bid, name, {}).Success?
    ensures var tx2, t := LinkTag(tx, bid, name, {}).value.0, LinkTag(tx, bid, name, {}).value.1;
            t.name == name && TagByName(tx2.db.tags, name) == Success(t) &&
            FreshNames(tx.db.tags, tx2.db.tags) &&
            (tx2.db.tags == tx.db.tags || tx2.db.tags == tx.db.tags + [t])
  {
    var got := GetOrCreateTag(tx, name, {}).value;
    if TagByName(tx.db.tags, name).Failure? {
      var tags := tx.db.tags;
      assert got.0.db.tags == tags + [got.1];
      TagByNameAppendNew(tags, got.1);
      forall j | 0 <= j < |tags| ensures (tags + [got.1])[j].name != got.1.name {
        assert tags[j] in tags;
      }
    }
  }

  /** The inner loop's summary without faults: the rows added have fresh
      names and are among the tags returned, and every tag returned is what
      a lookup of its name finds. */
  predicate Shares(d1: seq<Tag>, d2: seq<Tag>, ts: seq<Tag>) {
    FreshNames(d1, d2) && Found(d2, ts) && forall i :: |d1| <= i < |d2| ==> d2[i] in ts
  }

  lemma SharesStep(d1: seq<Tag>, d2: seq<Tag>, d3: seq<Tag>, ts: seq<Tag>, t: Tag)
    requires Shares(d1, d2, ts) && FreshNames(d2, d3) && TagByName(d3, t.name) == Success(t)
    requires d3 == d2 || d3 == d2 + [t]
    ensures Shares(d1, d3, ts + [t])
  {
    FreshNamesTrans(d1, d2, d3);
    assert d2 + d3[|d2|..] == d3;
    FoundAppend(d2, d3[|d2|..], ts);
    forall i | |d1| <= i < |d3| ensures d3[i] in ts + [t] {
      if i < |d2| {
        assert d3[i] == d2[i] && d2[i] in ts;
      }
    }
  }

  lemma {:induction false} TagsFoldShares(tx: Tx, bid: int, names: seq<string>)
    requires TagsFold(tx, bid, names, {}).Success?
    ensures var r := TagsFold(tx, bid, names, {}).value;
            Shares(tx.db.tags, r.0.db.tags, r.1)
    decreases |names|
  {
    if names != [] {
      var init, last := names[..|names| - 1], names[|names| - 1];
      TagsFoldLast(tx, bid, names, {});
      TagsFoldShares(tx, bid, init);
      var prev := TagsFold(tx, bid, init, {}).value;
      LinkTagNoFault(prev.0, bid, last);
      var next := LinkTag(prev.0, bid, last, {}).value;
      SharesStep(tx.db.tags, prev.0.db.tags, next.0.db.tags, prev.1, next.1);
    }
  }

  lemma ItemStepShares(tx: Tx, p: NewBookmarkParams)
    requires ItemStep(tx, p, {}).Success?
    ensures var tx2, b := ItemStep(tx, p, {}).value.0, ItemStep(tx, p, {}).value.1;
            b.tags.Some? && Shares(tx.db.tags, tx2.db.tags, b.tags.value)
  {
    var ins := InsertBookmark(tx, p.title, Serialize(p.url), {}).value;
    TagsFoldShares(ins.0, ins.1.id, p.tags);
  }

  /** The outer loop's summary without faults: as `Shares`, over the tags
      of every bookmark returned so far. */
  predicate SharesAll(d1: seq<Tag>, d2: seq<Tag>, bs: seq<Bookmark>) {
    FreshNames(d1, d2) &&
    (forall i :: 0 <= i < |bs| ==> bs[i].tags.Some? && Found(d2, bs[i].tags.value)) &&
    forall i :: |d1| <= i < |d2| ==>
      exists k :: 0 <= k < |bs| && bs[k].tags.Some? && d2[i] in bs[k].tags.value
  }

  lemma SharesAllStep(d1: seq<Tag>, d2: seq<Tag>, d3: seq<Tag>, bs: seq<Bookmark>, b: Bookmark)
    requires SharesAll(d1, d2, bs) && b.tags.Some? && Shares(d2, d3, b.tags.value)
    ensures SharesAll(d1, d3, bs + [b])
  {
    FreshNamesTrans(d1, d2, d3);
    var more := d3[|d2|..];
    assert d2 + more == d3;
    var bs2 := bs + [b];
    forall i | 0 <= i < |bs2| ensures bs2[i].tags.Some? && Found(d3, bs2[i].tags.value) {
      if i < |bs| {
        FoundAppend(d2, more, bs[i].tags.value);
      }
    }
    forall i | |d1| <= i < |d3|
      ensures exists k :: 0 <= k < |bs2| && bs2[k].tags.Some? && d3[i] in bs2[k].tags.value
    {
      if i < |d2| {
        var k :| 0 <= k < |bs| && bs[k].tags.Some? && d2[i] in bs[k].tags.value;
        assert bs2[k] == bs[k] && d3[i] == d2[i];
      } else {
        assert bs2[|bs|] == b;
      }
    }
  }

  lemma {:induction false} ItemsFoldShares(tx: Tx, ps: seq<NewBookmarkParams>)
    requires ItemsFold(tx, ps, {}).Success?
    ensures var r := ItemsFold(tx, ps, {}).value;
            SharesAll(tx.db.tags, r.0.db.tags, r.1)
    decreases |ps|
  {
    if ps != [] {
      var init := ps[..|ps| - 1];
      ItemsFoldShares(tx, init);
      var prev := ItemsFold(tx, init, {}).value;
      ItemStepShares(prev.0, ps[|ps| - 1]);
      var next := ItemStep(prev.0, ps[|ps| - 1], {}).value;
      SharesAllStep(tx.db.tags, prev.0.db.tags, next.0.db.tags, prev.1, next.1);
    }
  }

  /** Get-or-create across a fault-free `batch_create`: one name gets one
      tag, whether it is repeated inside an item or shared by two items;
      the batch only adds rows for tags it returns, each under a name no
      earlier row has. */
  lemma BatchCreateSharesTags(db: Db, ps: seq<NewBookmarkParams>)
    requires Valid(db) && BatchCreate(db, ps, {}).Success?
    ensures var db2, bs := BatchCreate(db, ps, {}).value.0, BatchCreate(db, ps, {}).value.1;
            |bs| == |ps| &&
            (forall i :: 0 <= i < |ps| ==> Mirrors(bs[i], ps[i], db.nextBookmarkId + i)) &&
            (forall i, k :: 0 <= i < |ps| && 0 <= k < |ps[i].tags| ==>
               TagByName(db2.tags, ps[i].tags[k]) == Success(bs[i].tags.value[k])) &&
            (forall i, j, k, l ::
               (0 <= i < |ps| && 0 <= j < |ps| && 0 <= k < |ps[i].tags| && 0 <= l < |ps[j].tags| &&
                ps[i].tags[k] == ps[j].tags[l]) ==> bs[i].tags.value[k] == bs[j].tags.value[l]) &&
            db.tags <= db2.tags &&
            (forall i, j :: |db.tags| <= i < |db2.tags| && 0 <= j < i ==> db2.tags[j].name != db2.tags[i].name) &&
            (forall i :: |db.tags| <= i < |db2.tags| ==>
               exists k :: 0 <= k < |bs| && bs[k].tags.Some? && db2.tags[i] in bs[k].tags.value)
  {
    BatchCreateRows(db, ps, {});
    ItemsFoldShares(Tx(db, 1), ps);
    var db2, bs := BatchCreate(db, ps, {}).value.0, BatchCreate(db, ps, {}).value.1;
    forall i, k | 0 <= i < |ps| && 0 <= k < |ps[i].tags|
      ensures TagByName(db2.tags, ps[i].tags[k]) == Success(bs[i].tags.value[k])
    {
      assert Mirrors(bs[i], ps[i], db.nextBookmarkId + i) && Found(db2.tags, bs[i].tags.value);
    }
    forall i, j, k, l |
      0 <= i < |ps| && 0 <= j < |ps| && 0 <= k < |ps[i].tags| && 0 <= l < |ps[j].tags| &&
      ps[i].tags[k] == ps[j].tags[l]
      ensures bs[i].tags.value[k] == bs[j].tags.value[l]
    {
      assert Mirrors(bs[i], ps[i], db.nextBookmarkId + i) && Mirrors(bs[j], ps[j], db.nextBookmarkId + j);
      assert Found(db2.tags, bs[i].tags.value) && Found(db2.tags, bs[j].tags.value);
      assert TagByName(db2.tags, ps[i].tags[k]) == Success(bs[i].tags.value[k]);
    }
  }

  /** Rows added under fresh names that are all the same tag are at most one. */
  lemma FreshRowsAtMostOne(d1: seq<Tag>, d2: seq<Tag>, t: Tag)
    requires FreshNames(d1, d2) && forall i :: |d1| <= i < |d2| ==> d2[i] == t
    ensures |d2| <= |d1| + 1
  {
    if |d2| > |d1| + 1 {
      FreshNamesDiffer(d1, d2, |d1| + 1, |d1|);
      assert false;
    }
  }

  lemma FreshNamesDiffer(d1: seq<Tag>, d2: seq<Tag>, i: int, j: int)
    requires FreshNames(d1, d2) && |d1| <= i < |d2| && 0 <= j < i
    ensures d2[j].name != d2[i].name
  {
  }

  /** Two items carrying the same name, which no tag row has yet: the batch
      adds one tag row and two junction rows, and both bookmarks carry that
      one tag. */
  lemma SharedNameOneRow(db: Db, p: NewBookmarkParams, q: NewBookmarkParams, name: string)
    requires Valid(db) && p.tags == [name] && q.tags == [name]
    requires TagByName(db.tags, name).Failure? && BatchCreate(db, [p, q], {}).Success?
    ensures var db2, bs := BatchCreate(db, [p, q], {}).value.0, BatchCreate(db, [p, q], {}).value.1;
            |db2.tags| == |db.tags| + 1 && |db2.links| == |db.links| + 2 &&
            |bs| == 2 && bs[0].tags == bs[1].tags == Some([db2.tags[|db.tags|]]) &&
            db2.tags[|db.tags|].name == name &&
            db2.links == db.links + [Link(db.nextBookmarkId, db2.tags[|db.tags|].id),
                                     Link(db.nextBookmarkId + 1, db2.tags[|db.tags|].id)]
  {
    var r := BatchCreate(db, [p, q], {}).value;
    SharedNameTagRow(db, p, q, name);
    BatchCreateLinks(db, [p, q], {});
    assert r.1 == [r.1[0], r.1[1]];
    TwoLinks(db.links, r.0.links, r.1[0], r.1[1], r.0.tags[|db.tags|]);
  }

  /** The tag side of `SharedNameOneRow`. */
  lemma SharedNameTagRow(db: Db, p: NewBookmarkParams, q: NewBookmarkParams, name: string)
    requires Valid(db) && p.tags == [name] && q.tags == [name]
    requires TagByName(db.tags, name).Failure? && BatchCreate(db, [p, q], {}).Success?
    ensures var db2, bs := BatchCreate(db, [p, q], {}).value.0, BatchCreate(db, [p, q], {}).value.1;
            |db2.tags| == |db.tags| + 1 && |db2.links| == |db.links| + 2 &&
            |bs| == 2 && bs[0].tags == bs[1].tags == Some([db2.tags[|db.tags|]]) &&
            db2.tags[|db.tags|].name == name &&
            bs[0].id == db.nextBookmarkId && bs[1].id == db.nextBookmarkId + 1
  {
    var ps := [p, q];
    BatchCreateRows(db, ps, {});
    BatchCreateSharesTags(db, ps);
    var db2, bs := BatchCreate(db, ps, {}).value.0, BatchCreate(db, ps, {}).value.1;
    assert TotalNames(ps) == 2 by {
      assert [p][..0] == [];
      assert TotalNames([p]) == 1;
      assert ps[..1] == [p];
    }
    assert Mirrors(bs[0], p, db.nextBookmarkId) && Mirrors(bs[1], q, db.nextBookmarkId + 1);
    var t := bs[0].tags.value[0];
    assert TagByName(db2.tags, ps[0].tags[0]) == Success(t);
    assert TagByName(db2.tags, ps[1].tags[0]) == Success(bs[1].tags.value[0]);
    SingleTag(bs[0], p, db.nextBookmarkId);
    SingleTag(bs[1], q, db.nextBookmarkId + 1);
    OneNewRow(db.tags, db2.tags, bs, t);
  }

  /** The junction rows of two bookmarks that both carry just `t`. */
  lemma TwoLinks(l1: seq<Link>, l2: seq<Link>, b0: Bookmark, b1: Bookmark, t: Tag)
    requires l2 == l1 + BatchLinks([b0, b1])
    requires b0.tags == Some([t]) && b1.tags == Some([t])
    ensures l2 == l1 + [Link(b0.id, t.id), Link(b1.id, t.id)]
  {
    assert [b0, b1][..1] == [b0];
    assert [b0][..0] == [];
    assert BatchLinks([b0]) == [] + LinksTo(b0.id, [t]);
    assert BatchLinks([b0, b1]) == BatchLinks([b0]) + LinksTo(b1.id, [t]);
  }

  lemma SingleTag(b: Bookmark, p: NewBookmarkParams, id: int)
    requires Mirrors(b, p, id) && |p.tags| == 1
    ensures b.tags == Some([b.tags.value[0]])
  {
    assert b.tags.value == [b.tags.value[0]];
  }

  /** When both returned bookmarks carry just `t`, which is new to the
      table, the rows added under fresh names are exactly `t`. */
  lemma OneNewRow(d1: seq<Tag>, d2: seq<Tag>, bs: seq<Bookmark>, t: Tag)
    requires FreshNames(d1, d2)
    requires forall i :: |d1| <= i < |d2| ==>
               exists k :: 0 <= k < |bs| && bs[k].tags.Some? && d2[i] in bs[k].tags.value
    requires |bs| == 2 && bs[0].tags == Some([t]) && bs[1].tags == Some([t])
    requires t in d2 && forall x :: x in d1 ==> x.name != t.name
    ensures |d2| == |d1| + 1 && d2[|d1|] == t
  {
    forall i | |d1| <= i < |d2| ensures d2[i] == t {
      var k :| 0 <= k < |bs| && bs[k].tags.Some? && d2[i] in bs[k].tags.value;
      assert k == 0 || k == 1;
    }
    FreshRowsAtMostOne(d1, d2, t);
    assert t !in d1;
    assert d2 == d1 + d2[|d1|..];
    assert t in d2[|d1|..];
  }

  // ---------------------------------------------------------------------
  // What create does

  /** The junction loop succeeds exactly when none of its statement
      positions fails, and then appends one row per tag. */
  lemma {:induction false} LinksFoldExact(tx: Tx, bid: int, ts: seq<Tag>, faults: set<nat>)
    ensures LinksFold(tx, bid, ts, faults).Success? <==>
              forall k :: tx.step <= k < tx.step + |ts| ==> k !in faults
    ensures LinksFold(tx, bid, ts, faults).Success? ==>
              LinksFold(tx, bid, ts, faults).value ==
                Tx(tx.db.(links := tx.db.links + LinksTo(bid, ts)), tx.step + |ts|)
    decreases |ts|
  {
    if ts != [] {
      var init := ts[..|ts| - 1];
      LinksFoldExact(tx, bid, init, faults);
      assert LinksTo(bid, ts) == LinksTo(bid, init) + [Link(bid, ts[|ts| - 1].id)];
    } else {
      assert tx.db.links + LinksTo(bid, ts) == tx.db.links;
    }
  }

  /** `create` commits exactly when no statement among `begin`, the
      bookmark insert, one junction insert per tag and `commit` fails, and
      the bookmark table still has a key to give. */
  lemma CreateSucceeds(db: Db, title: Option<string>, url: Url, tags: Option<seq<Tag>>, faults: set<nat>)
    ensures var n := if tags.Some? then |tags.value| else 0;
            Create(db, title, url, tags, faults).Success? <==>
              db.nextBookmarkId <= I64_MAX && forall k :: 0 <= k < n + 3 ==> k !in faults
  {
    var n := if tags.Some? then |tags.value| else 0;
    if 0 !in faults && 1 !in faults && db.nextBookmarkId <= I64_MAX {
      var ins := InsertBookmark(Tx(db, 1), title, Serialize(url), faults).value;
      if tags.Some? {
        LinksFoldExact(ins.0, ins.1.id, tags.value, faults);
      }
      if Create(db, title, url, tags, faults).Success? {
        forall k | 0 <= k < n + 3 ensures k !in faults {
          if 2 <= k < n + 2 {
            assert ins.0.step <= k < ins.0.step + n;
          }
        }
      }
    }
  }

  /** `create` appends one bookmark row with the next key and one junction
      row per given tag, touches no tag row, and returns the bookmark with
      the title, URL and tags it was given. */
  lemma CreateShape(db: Db, title: Option<string>, url: Url, tags: Option<seq<Tag>>, faults: set<nat>)
    requires Valid(db) && Create(db, title, url, tags, faults).Success?
    ensures var db2, b := Create(db, title, url, tags, faults).value.0, Create(db, title, url, tags, faults).value.1;
            var ts := if tags.Some? then tags.value else [];
            b.id == db.nextBookmarkId && b.title == title && b.url.inner == url && b.tags == tags &&
            db2.bookmarks == db.bookmarks + [BookmarkRow(b.id, title, Serialize(url))] &&
            db2.links == db.links + LinksTo(b.id, ts) &&
            db2.tags == db.tags && db2.nextTagId == db.nextTagId &&
            db2.nextBookmarkId == b.id + 1 && Valid(db2)
  {
    ParseSerialize(url);
    var ins := InsertBookmark(Tx(db, 1), title, Serialize(url), faults).value;
    if tags.Some? {
      LinksFoldExact(ins.0, ins.1.id, tags.value, faults);
    } else {
      assert LinksTo(ins.1.id, []) == [];
    }
  }

  // ---------------------------------------------------------------------
  // create, then delete

  lemma {:induction false} DeleteLastRow(rows: seq<BookmarkRow>, row: BookmarkRow)
    requires forall i :: 0 <= i < |rows| ==> rows[i].id != row.id
    ensures DeleteRows(rows + [row], row.id) == rows
  {
    if rows != [] {
      assert (rows + [row])[1..] == rows[1..] + [row];
      DeleteLastRow(rows[1..], row);
    } else {
      assert rows + [row] == [row];
    }
  }

  lemma {:induction false} LinkedTagsAppendOther(tags: seq<Tag>, links: seq<Link>, more: seq<Link>, bid: int)
    requires forall i :: 0 <= i < |more| ==> more[i].bookmarkId != bid
    ensures LinkedTags(tags, links + more, bid) == LinkedTags(tags, links, bid)
  {
    if links != [] {
      assert (links + more)[1..] == links[1..] + more;
      LinkedTagsAppendOther(tags, links[1..], more, bid);
    } else {
      assert links + more == more;
      LinkedTagsOther(tags, more, bid);
    }
  }

  lemma {:induction false} LinkedTagsOther(tags: seq<Tag>, links: seq<Link>, bid: int)
    requires forall i :: 0 <= i < |links| ==> links[i].bookmarkId != bid
    ensures LinkedTags(tags, links, bid) == []
  {
    if links != [] {
      LinkedTagsOther(tags, links[1..], bid);
    }
  }

  /** Two databases with the same bookmark rows, and the same tags linked
      to each of them, aggregate to the same rows. */
  lemma AggregateSameLinks(d1: Db, d2: Db)
    requires UrlsParse(d1.bookmarks) && d2.bookmarks == d1.bookmarks
    requires forall i :: 0 <= i < |d1.bookmarks| ==>
               LinkedTags(d2.tags, d2.links, d1.bookmarks[i].id) == LinkedTags(d1.tags, d1.links, d1.bookmarks[i].id)
    ensures Aggregate(d2) == Aggregate(d1)
  {
    forall i | 0 <= i < |d1.bookmarks| ensures Aggregate(d2)[i] == Aggregate(d1)[i] {
      assert RowOf(d2, d1.bookmarks[i]) == RowOf(d1, d1.bookmarks[i]);
    }
  }

  /** Deleting a row just appended, whose junction rows were appended with
      it, restores the bookmark table and every query result. */
  lemma DeleteAppended(db: Db, db2: Db, row: BookmarkRow, ts: seq<Tag>, filter: seq<Tag>)
    requires Valid(db) && row.id == db.nextBookmarkId
    requires db2.bookmarks == db.bookmarks + [row] && db2.links == db.links + LinksTo(row.id, ts)
    requires db2.tags == db.tags
    ensures Delete(db2, row.id).bookmarks == db.bookmarks && Delete(db2, row.id).tags == db.tags
    ensures QueryBookmarks(Delete(db2, row.id), filter) == QueryBookmarks(db, filter)
  {
    DeleteLastRow(db.bookmarks, row);
    var db3 := Delete(db2, row.id);
    assert db3.bookmarks == db.bookmarks;
    forall i | 0 <= i < |db.bookmarks|
      ensures LinkedTags(db3.tags, db3.links, db.bookmarks[i].id) == LinkedTags(db.tags, db.links, db.bookmarks[i].id)
    {
      LinkedTagsAppendOther(db.tags, db.links, LinksTo(row.id, ts), db.bookmarks[i].id);
    }
    AggregateSameLinks(db, db3);
  }

  /** Creating a bookmark and deleting it again leaves what `fetch_all`
      returns, for any filter, and the tag table as they were. */
  lemma CreateThenDelete(db: Db, title: Option<string>, url: Url, tags: Option<seq<Tag>>,
                         faults: set<nat>, filter: seq<Tag>)
    requires Valid(db) && Create(db, title, url, tags, faults).Success?
    ensures var db2, b := Create(db, title, url, tags, faults).value.0, Create(db, title, url, tags, faults).value.1;
            var db3 := Delete(db2, b.id);
            db3.bookmarks == db.bookmarks && QueryBookmarks(db3, filter) == QueryBookmarks(db, filter) && db3.tags == db.tags
  {
    CreateShape(db, title, url, tags, faults);
    var b := Create(db, title, url, tags, faults).value.1;
    DeleteAppended(db, Create(db, title, url, tags, faults).value.0, BookmarkRow(b.id, title, Serialize(url)),
                   if tags.Some? then tags.value else [], filter);
  }
}
