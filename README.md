# fbmark in Dafny

A verified model of the core of fbmark, a terminal bookmark manager. It
keeps bookmarks and tags in SQLite, filters them by tag, searches them
fuzzily by title or URL, creates them one at a time or in a batch fetched
from a remote service, and opens them in a browser. The model covers:

- the application state machine of `src/app.rs` and the key routing of
  `src/update.rs`: modes Scrolling, Search and Create, the three input panes,
  the cursor lists, and every operation a key can trigger;
- the SQLite adapter of `src/adapters/sqlite.rs`, with the database as an
  abstract set of tables:
  - the aggregating `fetch_all` query with its two hand-written parsers of
    the packed tag string;
  - the transactional `create` and `batch_create`;
  - `delete` and the tag operations;
- the records and forwarding functions of `src/models/bookmarks.rs` and
  `src/models/tags.rs`.

Layout, one module per file:

| file | module | models |
|---|---|---|
| wrappers.dfy | Wrappers | `Option`, `Result`, the error kinds the model tells apart |
| text.dfy | Text | the Rust string operations the parsers use: `split(',')`, `trim`, `parse::<i64>`, SQLite's integer-to-text |
| url.dfy | Url | a stand-in for `url::Url`: parsing and serialisation |
| keys.dfy | Keys | crossterm key events |
| tags.dfy | Tags | `Tag` |
| bookmarks.dfy | Bookmarks | `Bookmark`, `BookmarkUrl`, `NewBookmarkParams`, `RawBookmark` |
| tag_string.dfy | TagString | the packed `group_concat` tag string, the filter's `windows(2)` parser, the materialiser's `chunks(2)` parser |
| store.dfy | Store | the tables, the query behind `fetch_all`, the filter, delete and the tag statements |
| transactions.dfy | Transactions | the statements inside a transaction, `create` and `batch_create` as folds, and what they do |
| sqlite.dfy | Sqlite | class `Repo` and the loops of `create` and `batch_create` |
| repos.dfy | Repos | the `Bookmark::…` and `Tag::…` forwarding functions |
| search.dfy | BookmarkSearch | the free function `search` over a relevance function |
| session.dfy | Session | the application state as a value, each `App` operation as a function, and what they promise |
| app.dfy | App | classes `StatefulList` and `App` |
| update.dfy | Update | `update`: the key dispatch |

Imperative code keeps its form:

- `StatefulList`, `App` and `Repo` are classes whose methods update their
  fields.
- The loops of `create`, `batch_create` and `search` are `for` loops.
- Each method is proved to follow a function (`Session.ResolveEnter`,
  `Transactions.BatchCreate`, …). What the source promises is proved about
  those functions.

Inputs from outside the program are parameters, bundled in `Session.World`:

- the key-editing step of `tui_input`;
- the relevance score of `simsearch`;
- the list the remote service returns;
- whether the browser launched;
- which statements of a transaction fail (`faults`, positions counted from
  `begin` = 0).

## Model

| member | source | states |
|---|---|---|
| Tags.New | src/models/tags.rs:12-14 | the tag has exactly the given id and name; it is the default tag iff id 0 and empty name |
| Tags.Ids | src/adapters/sqlite.rs:99-102 | the ids of a tag list, position by position |
| Bookmarks.UrlIntoString | src/models/bookmarks.rs:47-51 | the text of a `BookmarkUrl` parses back to the same URL |
| Bookmarks.UrlFromString | src/models/bookmarks.rs:53-59 | text that parses converts to a URL whose text parses as the input does; text that does not parse is excluded (the source panics) |
| Bookmarks.UrlStringRoundTrip | src/models/bookmarks.rs:47-59 | converting a `BookmarkUrl` to text and back is the identity |
| Bookmarks.NewBookmark | src/models/bookmarks.rs:62-69 | id, title and tags stored verbatim; a URL text that is a serialisation yields exactly that URL |
| Url.Parse | src/app.rs:133 | of the stand-in parser only: a parsed URL's serialisation is as long as the input (the `url` crate may add a `/` or lower a host) |
| Url.ParseSerialize | src/models/bookmarks.rs:47-59 | serialising and re-parsing a URL gives the same URL |
| Url.SerializeOfParse | src/models/bookmarks.rs:47-51 | of the stand-in parser only: the serialisation lowers the scheme and keeps the rest of the text verbatim |
| Url.NoColonRejected | src/app.rs:133 | a link without a scheme separator does not parse |
| Text.NatToDecimal | src/adapters/sqlite.rs:63 | SQLite's integer-to-text: digits only, no leading zero |
| Text.IntToDecimal | src/adapters/sqlite.rs:63 | SQLite's integer-to-text is never empty |
| Text.DigitsValueOfDecimal | src/adapters/sqlite.rs:63 | the decimal text of n reads back as n |
| Text.ParseI64 | src/adapters/sqlite.rs:88 | `parse::<i64>`: only values in the i64 range, never on empty text |
| Text.ParseI64OfDecimal | src/adapters/sqlite.rs:88 | every i64 written by SQLite parses back to itself |
| Text.TrimStart | src/adapters/sqlite.rs:83 | the result starts with no whitespace and is no longer than the input |
| Text.TrimStartExact | src/adapters/sqlite.rs:83 | `trim_start` returns a suffix of the input and everything it drops is whitespace |
| Text.TrimEnd | src/adapters/sqlite.rs:83 | the result ends with no whitespace and is no longer than the input |
| Text.TrimEndExact | src/adapters/sqlite.rs:83 | `trim_end` returns a prefix of the input and everything it drops is whitespace |
| Text.Trim | src/adapters/sqlite.rs:83 | `str::trim`: trailing then leading whitespace removed; its meaning is `Text.TrimSlice` |
| Text.TrimSlice | src/adapters/sqlite.rs:83 | `trim` returns a slice `s[a..b]` with only whitespace outside it and no whitespace at either end |
| Text.TrimDecimal | src/adapters/sqlite.rs:83 | trimming a decimal leaves it unchanged |
| Text.Split | src/adapters/sqlite.rs:82 | `split(',')` always gives at least one piece |
| Text.SplitWord | src/adapters/sqlite.rs:82 | a comma-free word splits into itself |
| Text.SplitAfterWord | src/adapters/sqlite.rs:82 | splitting `w,t` gives `w` followed by the pieces of `t` |
| Text.SplitJoin | src/adapters/sqlite.rs:82 | splitting comma-free pieces joined with commas gives the pieces back |
| Text.DecimalHasNoComma | src/adapters/sqlite.rs:63 | an id written as text holds no comma |
| TagString.GroupConcat | src/adapters/sqlite.rs:63 | the packed tag string is absent iff the bookmark has no tags |
| TagString.PairTexts | src/adapters/sqlite.rs:63 | one `id,name` text per joined tag, in order |
| TagString.Tokens | src/adapters/sqlite.rs:63 | two tokens per tag |
| TagString.JoinPairTexts | src/adapters/sqlite.rs:63 | the packed string is the tokens joined by commas |
| TagString.TokensWithoutComma | src/adapters/sqlite.rs:63 | with comma-free names no token holds a comma |
| TagString.SplitGroupConcat | src/adapters/sqlite.rs:63-82 | with comma-free names, splitting the packed string gives the tokens back |
| TagString.TrimAll | src/adapters/sqlite.rs:83 | one trimmed token per token |
| TagString.WindowPairs | src/adapters/sqlite.rs:85-96 | the overlapping-pair reader yields at most one pair per token |
| TagString.PairIds | src/adapters/sqlite.rs:99 | the ids of the pairs, in order |
| TagString.WindowPairsAtId | src/adapters/sqlite.rs:85-96 | a window starting at a numeric token yields the pair (id, next token) |
| TagString.WindowPairsAfterName | src/adapters/sqlite.rs:85-96 | a window starting at a name yields a pair only when the name reads as a number |
| TagString.FilterTagIds | src/adapters/sqlite.rs:81-99 | `bmark_tags_ids`: split, trim, `windows(2)`, keep windows whose first token parses, take the numbers; what it reads is `TagString.FilterTagIdsRead` and `TagString.FilterTagIdsExact` |
| TagString.TrimmedTokens | src/adapters/sqlite.rs:83 | trimming the tokens of a tag list, tag by tag |
| TagString.TrimAllTwo | src/adapters/sqlite.rs:83 | trimming distributes over the first two tokens |
| TagString.WindowPairsOfTokens | src/adapters/sqlite.rs:81-97 | the filter's pair list is each tag's (id, trimmed name) plus an extra pair after every name that reads as an i64 |
| TagString.FilterTagIdsRead | src/adapters/sqlite.rs:81-99 | with comma-free names, the ids the filter reads from the packed string are the ids of those pairs |
| TagString.ReadPairsWithoutNumericNames | src/adapters/sqlite.rs:81-99 | when no name reads as a number, the ids read are exactly the tag ids |
| TagString.FilterTagIdsExact | src/adapters/sqlite.rs:81-99 | under both conditions, the filter reads exactly the ids of the joined tags, in order |
| TagString.ReadPairsAtNumericName | src/adapters/sqlite.rs:85-96 | a numeric name followed by another tag yields a pair keyed by that number |
| TagString.NumericNameReadAsId | src/adapters/sqlite.rs:81-99 | a tag name that reads as n, followed by another tag, makes the filter see id n |
| TagString.NumericNameExample | src/adapters/sqlite.rs:81-99 | tags `(1,"5"),(2,"x")`: the filter sees id 5, which no joined tag has |
| TagString.ChunkTags | src/adapters/sqlite.rs:121-135 | one tag per two tokens, a trailing single token counting as one |
| TagString.MaterializeTags | src/adapters/sqlite.rs:120-137 | no packed string gives no tag list |
| TagString.ChunkTagsOfTokens | src/adapters/sqlite.rs:121-135 | the `chunks(2)` reader returns exactly the tags whose tokens it reads |
| TagString.MaterializeGroupConcat | src/adapters/sqlite.rs:63-137 | with comma-free names the materialised tags are exactly the joined tags, absent when there are none |
| TagString.CommaInNameShiftsPairs | src/adapters/sqlite.rs:121-135 | a comma in a name splits it: tag `(1,"a,b")` reads back as `(1,"a")` and a default tag |
| Store.EmptyValid | src/adapters/sqlite.rs:20-50 | the freshly migrated empty database satisfies the invariant |
| Store.TagsWithId | src/adapters/sqlite.rs:66 | the tag rows with a given key, all of them |
| Store.LinkedTags | src/adapters/sqlite.rs:63-67 | the tags joined to a bookmark are tag rows |
| Store.RowOf | src/adapters/sqlite.rs:60-71 | an aggregated row carries the stored id, title and parsed URL |
| Store.Aggregate | src/adapters/sqlite.rs:60-71 | one aggregated row per bookmark row, in table order |
| Store.Intersects | src/adapters/sqlite.rs:104-109 | true iff some read id is among the required ids |
| Store.KeepMatching | src/adapters/sqlite.rs:77-114 | the filter keeps at most the rows it is given |
| Store.FilterRows | src/adapters/sqlite.rs:73-115 | an empty filter keeps every row unchanged |
| Store.KeepMatchingMembers | src/adapters/sqlite.rs:77-114 | a row is kept iff it is given and its tag ids meet the filter ids; a row without tags is dropped |
| Store.KeepMatchingAppend | src/adapters/sqlite.rs:77-114 | filtering commutes with concatenation, so kept rows keep their relative order |
| Store.KeepUnion | src/adapters/sqlite.rs:101-109 | the filter is a logical OR over filter tags |
| Store.KeepMatchingSameIds | src/adapters/sqlite.rs:101-109 | only the set of filter ids matters |
| Store.FilterRepeatedTag | src/adapters/sqlite.rs:101-109 | adding a tag already in the filter changes no result |
| Store.FilterWidens | src/adapters/sqlite.rs:101-109 | adding a tag to a non-empty filter never drops a row |
| Store.Materialize | src/adapters/sqlite.rs:117-141 | the bookmark keeps the row's id, title and URL; its tags are the `chunks(2)` reading |
| Store.MaterializeAll | src/adapters/sqlite.rs:117-141 | exactly one bookmark per kept row, in order |
| Store.QueryBookmarks | src/adapters/sqlite.rs:55-144 | `fetch_all` returns at most one bookmark per stored bookmark |
| Store.TagRowFacts | src/adapters/sqlite.rs:63-67 | every tag row has an i64 key and, under the table's name conditions, a comma-free, non-numeric name |
| Store.LinkedTagsFacts | src/adapters/sqlite.rs:63-67 | joined tags have i64 keys and inherit the table's comma-free and non-numeric names |
| Store.FetchUnfiltered | src/adapters/sqlite.rs:73-141 | without a filter every bookmark is returned in table order with its own URL and exactly its joined tags |
| Store.KeepExact | src/adapters/sqlite.rs:76-114 | with comma-free, non-numeric names a row is kept iff one of its joined tags has a filter tag's id |
| Store.FetchFiltered | src/adapters/sqlite.rs:76-114 | the same, stated over the stored bookmark rows |
| Store.FetchFromRows | src/adapters/sqlite.rs:55-144 | every returned bookmark has the id of a stored row |
| Store.KeepMatchingAscending | src/adapters/sqlite.rs:77-114 | the filter keeps rows with ascending keys ascending |
| Store.FetchInKeyOrder | src/adapters/sqlite.rs:55-144 | `fetch_all` returns bookmarks with strictly ascending, hence distinct, ids under any filter |
| Store.TagById | src/adapters/sqlite.rs:322-336 | the first tag with that id, or `RowNotFound` exactly when none has it |
| Store.TagByName | src/adapters/sqlite.rs:338-352 | the first tag with that name, or `RowNotFound` exactly when none has it |
| Store.TagByNameAppend | src/adapters/sqlite.rs:170-182 | a name once found keeps being found after more tags are added |
| Store.DeleteRows | src/adapters/sqlite.rs:274-286 | the rows without that key remain; an absent key changes nothing |
| Store.Delete | src/adapters/sqlite.rs:274-286 | only bookmark rows with that key go; tags and junction rows stay |
| Store.DeleteRowsKeys | src/adapters/sqlite.rs:274-286 | deleting keeps keys ordered and URLs parseable |
| Store.DeleteValid | src/adapters/sqlite.rs:274-286 | deleting keeps the invariant |
| Store.DeletedAbsent | src/adapters/sqlite.rs:274-286 | after deleting id, no fetch under any filter returns a bookmark with that id |
| Store.TagCreate | src/adapters/sqlite.rs:305-320 | fails with `StatementFailed` iff the database refuses the insert or the keys are exhausted; otherwise appends `(next key, name)` and returns it |
| Store.TagCreateValid | src/adapters/sqlite.rs:305-320 | creating a tag keeps the invariant |
| Store.DeleteTagRows | src/adapters/sqlite.rs:354-368 | the tag rows without that key remain |
| Store.TagDelete | src/adapters/sqlite.rs:354-368 | `RowNotFound` iff no tag has the key; otherwise removes it and returns the removed row |
| Store.TagDeleteRemoves | src/adapters/sqlite.rs:354-368 | after a tag delete no row with that key remains |
| Store.DeleteTagRowsKeys | src/adapters/sqlite.rs:354-368 | deleting a tag keeps tag keys ordered |
| Store.TagDeleteValid | src/adapters/sqlite.rs:354-368 | deleting a tag keeps the invariant |
| Transactions.Begin | src/adapters/sqlite.rs:149 | `pool.begin()`: fails when statement 0 fails; otherwise a transaction over the database at step 1 (see `Transactions.CreateSucceeds`, `Transactions.BatchCreateShape`) |
| Transactions.InsertBookmark | src/adapters/sqlite.rs:154-165 | the bookmark insert: fails on a fault or exhausted keys; otherwise appends `(next key, title, url text)` and returns it (see `Transactions.InsertBookmarkValid`, `Transactions.ItemStepShape`) |
| Transactions.SelectTagByName | src/adapters/sqlite.rs:170-182 | the name lookup: a fault reads as "not found", like the source's `if let Ok` (see `Transactions.GetOrCreateTag`) |
| Transactions.InsertTag | src/adapters/sqlite.rs:184-195 | the tag insert inside a transaction: fails on a fault or exhausted keys; otherwise appends `(next key, name)` (see `Transactions.TagByNameAppendNew`) |
| Transactions.InsertLink | src/adapters/sqlite.rs:198-208 | the junction insert: fails on a fault, otherwise appends `(bookmark, tag)` (see `Transactions.LinksFoldExact`) |
| Transactions.Commit | src/adapters/sqlite.rs:221 | `tx.commit()`: fails on a fault, otherwise the transaction's database (see `Transactions.CreateSucceeds`) |
| Transactions.LinkTag | src/adapters/sqlite.rs:170-210 | one name: get or create the tag, then link it (see `Transactions.LinkTagShape`, `Transactions.LinkTagNoFault`) |
| Transactions.TagsFold | src/adapters/sqlite.rs:169-211 | the tag loop as a fold, stopping at the first error (see `Transactions.TagsFoldShape`, `Transactions.TagsFoldShares`) |
| Transactions.ItemStep | src/adapters/sqlite.rs:152-220 | one item: insert the bookmark, run the tag loop, build the bookmark; its rows are exactly the bookmark row and one junction row per tag, in tag order (see `Transactions.ItemStepShape`) |
| Transactions.ItemsFold | src/adapters/sqlite.rs:152-220 | the item loop as a fold, stopping at the first error; it appends exactly the returned bookmarks' junction rows (see `Transactions.ItemsFoldShape`, `Transactions.ItemsFoldLinks`, `Transactions.ItemsFoldShares`) |
| Transactions.LinksFold | src/adapters/sqlite.rs:249-261 | the junction loop of `create` as a fold (see `Transactions.LinksFoldExact`) |
| Transactions.CreateLinks | src/adapters/sqlite.rs:248-262 | no tags, no junction rows; otherwise the junction loop (see `Transactions.CreateShape`) |
| Transactions.BatchCreate | src/adapters/sqlite.rs:146-224 | begin, the item loop, commit; the committed junction rows are exactly each new bookmark linked to each of its tags, in order (see `Transactions.BatchCreateShape`, `Transactions.BatchCreateSharesTags`) |
| Transactions.Create | src/adapters/sqlite.rs:226-272 | begin, one insert, the junction loop, commit (see `Transactions.CreateSucceeds`, `Transactions.CreateShape`) |
| Transactions.LinksTo | src/adapters/sqlite.rs:248-262 | one junction row per tag, in order |
| Transactions.GetOrCreateTag | src/adapters/sqlite.rs:170-196 | an existing tag with that name is reused; otherwise a tag is inserted; the tag has the name and is in the table |
| Transactions.TagsFoldFailurePrefix | src/adapters/sqlite.rs:169-211 | a failure inside the tag loop fails the whole loop with that error |
| Transactions.ItemsFoldFailurePrefix | src/adapters/sqlite.rs:152-220 | a failure inside the item loop fails the whole loop with that error |
| Transactions.LinksFoldFailurePrefix | src/adapters/sqlite.rs:248-262 | a failure inside the junction loop fails the whole loop with that error |
| Transactions.LinkTagShape | src/adapters/sqlite.rs:170-210 | one name: bookmarks untouched, one junction row, at most one new tag, invariant kept |
| Transactions.TagsFoldPostStep | src/adapters/sqlite.rs:169-211 | the tag loop's summary extends by one name |
| Transactions.TagsFoldShape | src/adapters/sqlite.rs:169-211 | the tag loop returns one tag per name, named as it, adds one junction row per name and at most one tag row per name |
| Transactions.TagsFoldTotal | src/adapters/sqlite.rs:169-211 | without failing statements and with keys to spare, the tag loop succeeds |
| Transactions.TagByNameAppendNew | src/adapters/sqlite.rs:184-195 | a newly inserted tag is what the next lookup of its name finds |
| Transactions.LinkTagFindsAgain | src/adapters/sqlite.rs:170-196 | a tag created for a name is found, not recreated, by later items |
| Transactions.RepeatedNameOneRow | src/adapters/sqlite.rs:169-211 | a name given twice yields at most one new tag row, two junction rows, and the same tag twice |
| Transactions.LinkTagNoFault | src/adapters/sqlite.rs:170-210 | without faults, one name yields a tag with that name which the next lookup finds; the tag table is unchanged or gains exactly that tag under a name no earlier row has |
| Transactions.TagsFoldShares | src/adapters/sqlite.rs:169-211 | without faults, every returned tag is what a lookup of its name finds and every row the loop adds is among them, each under a fresh name |
| Transactions.ItemsFoldShares | src/adapters/sqlite.rs:152-220 | the same across all items of the loop |
| Transactions.BatchCreateSharesTags | src/adapters/sqlite.rs:146-224 | without faults, across the whole batch equal names get the same tag, each tag is what its name looks up to, and added rows have distinct names never seen before, each used by some item |
| Transactions.SharedNameOneRow | src/adapters/sqlite.rs:146-224 | two items sharing a name no row has: one new tag row; both bookmarks carry that tag; the junction rows added are exactly (first new key, that tag) and (second new key, that tag) |
| Transactions.SharedNameTagRow | src/adapters/sqlite.rs:146-224 | the same two items: one new tag row named as the item, carried by both bookmarks, which get consecutive fresh keys |
| Transactions.TwoLinks | src/adapters/sqlite.rs:198-208 | the junction rows of two bookmarks carrying one tag each are one row per bookmark, in order |
| Transactions.OneNewRow | src/adapters/sqlite.rs:170-196 | rows added under fresh names that are all the one new tag are exactly one row |
| Transactions.BatchRows | src/adapters/sqlite.rs:154-165 | the bookmark rows a batch inserts: consecutive keys, each item's title and URL text |
| Transactions.InsertBookmarkValid | src/adapters/sqlite.rs:154-165 | inserting a bookmark row keeps the invariant |
| Transactions.ItemStepShape | src/adapters/sqlite.rs:152-220 | one item: one bookmark row, its tags, the bookmark mirroring the item, and exactly one junction row from the new key to each of its tags, in tag order |
| Transactions.ItemsFoldPostStep | src/adapters/sqlite.rs:152-220 | the item loop's summary extends by one item |
| Transactions.ItemsFoldShape | src/adapters/sqlite.rs:152-220 | the item loop returns one bookmark per item in order, appends exactly the batch rows, one junction row per name |
| Transactions.BatchLinksSnoc | src/adapters/sqlite.rs:198-208 | one more item's junction rows extend the batch's junction rows at the end |
| Transactions.ItemsFoldLinks | src/adapters/sqlite.rs:152-220 | the item loop appends exactly the junction rows linking each returned bookmark to each of its tags, bookmark by bookmark, tag by tag |
| Transactions.ItemsFoldTotal | src/adapters/sqlite.rs:152-220 | without failing statements and with keys to spare, the item loop succeeds |
| Transactions.BatchCreateShape | src/adapters/sqlite.rs:146-224 | a committed batch: same length and order as the input, fresh consecutive keys, each item's title, URL and tag names, the junction rows exactly each new bookmark linked to each of its tags in order, invariant kept |
| Transactions.BatchCreateRows | src/adapters/sqlite.rs:146-224 | the bookmark part of that: bookmarks, bookmark rows, keys, counts, invariant |
| Transactions.BatchCreateLinks | src/adapters/sqlite.rs:146-224 | the junction-row part of that: exactly the returned bookmarks' links, appended in order |
| Transactions.BatchCreateTotal | src/adapters/sqlite.rs:146-224 | without failing statements and with keys to spare, the batch commits |
| Transactions.LinksFoldExact | src/adapters/sqlite.rs:248-262 | the junction loop succeeds iff none of its statements fails, and then appends one row per tag |
| Transactions.CreateSucceeds | src/adapters/sqlite.rs:226-272 | `create` commits iff begin, the insert, every junction insert and the commit succeed and a key is left |
| Transactions.CreateShape | src/adapters/sqlite.rs:226-272 | one bookmark row and one junction row per given tag, no tag lookup or creation, the returned bookmark carries the tags verbatim |
| Transactions.DeleteLastRow | src/adapters/sqlite.rs:274-286 | deleting the newest key removes exactly the last row |
| Transactions.LinkedTagsAppendOther | src/adapters/sqlite.rs:63-67 | junction rows for another bookmark do not change a bookmark's tags |
| Transactions.LinkedTagsOther | src/adapters/sqlite.rs:63-67 | the new bookmark's junction rows do not change older bookmarks' tags |
| Transactions.DeleteAppended | src/adapters/sqlite.rs:274-286 | deleting a just-appended row restores the bookmark table and every query result, despite its left-over junction rows |
| Transactions.CreateThenDelete | src/adapters/sqlite.rs:226-286 | creating and then deleting a bookmark restores the bookmark table and every `fetch_all` result |
| Sqlite.LinkTags | src/adapters/sqlite.rs:169-211 | the tag loop computes the tag fold |
| Sqlite.InsertItems | src/adapters/sqlite.rs:152-220 | the item loop computes the item fold |
| Sqlite.InsertLinks | src/adapters/sqlite.rs:248-262 | the junction loop computes the junction fold |
| Sqlite.Repo.constructor | src/adapters/sqlite.rs:20-50 | a repository over the empty, valid database |
| Sqlite.Repo.FetchAll | src/adapters/sqlite.rs:55-144 | returns the query result for the filter |
| Sqlite.Repo.BatchCreate | src/adapters/sqlite.rs:146-224 | commits the batch fold's database or, on any error, leaves the database as it was |
| Sqlite.Repo.Create | src/adapters/sqlite.rs:226-272 | commits the create fold's database or, on any error, leaves the database as it was |
| Sqlite.Repo.Delete | src/adapters/sqlite.rs:274-286 | never an error; the database becomes the deletion's |
| Sqlite.Repo.TagsFetchAll | src/adapters/sqlite.rs:291-303 | the tag table |
| Sqlite.Repo.TagsCreate | src/adapters/sqlite.rs:305-320 | the tag insert, or no change when it is refused |
| Sqlite.Repo.TagsGet | src/adapters/sqlite.rs:322-336 | the lookup by key |
| Sqlite.Repo.TagsGetByName | src/adapters/sqlite.rs:338-352 | the lookup by name |
| Sqlite.Repo.TagsDelete | src/adapters/sqlite.rs:354-368 | the removed row, or `RowNotFound` with no change |
| Repos.FetchAll | src/models/bookmarks.rs:71-73 | forwards to the repository unchanged |
| Repos.Create | src/models/bookmarks.rs:75-82 | forwards to the repository unchanged |
| Repos.BatchCreate | src/models/bookmarks.rs:84-89 | forwards to the repository unchanged |
| Repos.Delete | src/models/bookmarks.rs:91-93 | forwards to the repository unchanged |
| Repos.TagFetchAll | src/models/tags.rs:16-18 | forwards to the repository unchanged |
| Repos.TagCreate | src/models/tags.rs:20-22 | forwards to the repository unchanged |
| Repos.TagGet | src/models/tags.rs:24-26 | forwards to the repository unchanged |
| Repos.TagGetByName | src/models/tags.rs:28-30 | forwards to the repository unchanged |
| Repos.TagDelete | src/models/tags.rs:32-34 | forwards to the repository unchanged and returns the removed tag |
| BookmarkSearch.Insert | src/app.rs:261-264 | the engine keeps one entry per id: the new one replaces any old one |
| BookmarkSearch.Fill | src/app.rs:258-266 | every entry indexes some titled bookmark, entry ids are distinct; fails iff a titled bookmark's id does not fit in u32 (the converse, every titled bookmark has its entry, is `BookmarkSearch.FillComplete`) |
| BookmarkSearch.FillComplete | src/app.rs:258-266 | with distinct bookmark ids, a successful fill holds `(id, searched text)` for every titled bookmark |
| BookmarkSearch.FillCompleteStep | src/app.rs:258-266 | one more bookmark keeps every earlier titled bookmark's entry, because its id differs |
| BookmarkSearch.FillFailurePrefix | src/app.rs:258-266 | a failure on a prefix is a failure of the whole fill |
| BookmarkSearch.RankedCons | src/app.rs:268-269 | a best-scoring head keeps a ranked list ranked |
| BookmarkSearch.InsertRanked | src/app.rs:268-269 | inserting into the ranking adds exactly that entry |
| BookmarkSearch.InsertRankedKeepsOrder | src/app.rs:268-269 | inserting keeps the ranking descending |
| BookmarkSearch.Rank | src/app.rs:268-269 | exactly the matching entries, by descending score |
| BookmarkSearch.FindFirst | src/app.rs:271 | the first bookmark with that id, or none exactly when none has it |
| BookmarkSearch.FindAll | src/app.rs:270-271 | at most one bookmark per entry, all from the input; an entry whose id is present contributes the first bookmark with it; when every id is present, the result follows the entries one for one, in entry order |
| BookmarkSearch.Take | src/app.rs:272 | the prefix of length min(n, length) |
| BookmarkSearch.SearchResult | src/app.rs:251-253 | an empty pattern returns the input unchanged |
| BookmarkSearch.Search | src/app.rs:246-276 | the loop and pipeline compute the search result |
| BookmarkSearch.SearchBounds | src/app.rs:246-276 | a non-empty search fails iff a titled id does not fit in u32, with `IdOutOfRange`; otherwise at most 15 results, all from the input |
| BookmarkSearch.FoundIsIndexed | src/app.rs:271 | with distinct ids, the bookmark found for an entry is the one indexed |
| BookmarkSearch.FindAllIndexed | src/app.rs:268-273 | with distinct ids, every found bookmark is titled and matches |
| BookmarkSearch.SearchMatches | src/app.rs:246-276 | with distinct ids, results are titled and match on the searched text, even when searching by URL |
| BookmarkSearch.FindAllResolves | src/app.rs:270-271 | with distinct ids, entries that index bookmarks resolve one for one, in order, to the bookmark each indexes |
| BookmarkSearch.SearchLinesUp | src/app.rs:268-273 | with distinct ids, a non-empty search is the first 15 of the ranked entries' bookmarks, one per entry |
| BookmarkSearch.SearchOrdered | src/app.rs:268-273 | with distinct ids, a non-empty search returns min(15, number of matches) titled bookmarks, by non-increasing score |
| BookmarkSearch.SearchOmitsLower | src/app.rs:268-273 | a matching titled bookmark left out scores no higher than any bookmark returned |
| BookmarkSearch.SearchComplete | src/app.rs:268-273 | with at most 15 matches, every matching titled bookmark is returned |
| BookmarkSearch.MatchPosition | src/app.rs:258-271 | a matching titled bookmark's entry is among the ranked entries, and resolves back to that bookmark |
| Session.WithItems | src/app.rs:344-349 | the given items, nothing selected |
| Session.Next | src/app.rs:351-367 | empty list unchanged; from none to 0; otherwise (i+1) mod len; stays in range |
| Session.Previous | src/app.rs:369-385 | empty list unchanged; from none to 0; otherwise (i−1) mod len; stays in range |
| Session.Unselect | src/app.rs:387-389 | items kept, nothing selected |
| Session.NextPreviousInverse | src/app.rs:351-385 | down then up, or up then down, returns to the selected entry |
| Session.NextCycle | src/app.rs:351-367 | k steps down from entry i land on (i+k) mod len |
| Session.NextFullCycle | src/app.rs:351-367 | len steps down return to the same entry |
| Session.NextWindow | src/app.rs:86-101 | always another pane |
| Session.WindowCycle | src/app.rs:86-101 | Title→Tags→Link→Title, a cycle of three |
| Session.QueryUnique | src/app.rs:190-205 | the bookmarks `refresh_state` loads never repeat a key |
| Session.BatchUnique | src/app.rs:103-105 | the bookmarks `sync_bmarks` shows never repeat a key |
| Session.Initial | src/app.rs:38-54 | the starting state keeps the invariant, scrolls, has no filter and is not quitting |
| Session.Quit | src/app.rs:34-36 | sets the quit flag and nothing else (see `Update.QuitOnlyByQuitKeys`) |
| Session.ToggleHelp | src/app.rs:241-243 | flips the help flag and nothing else (see `Update.HelpTwice`) |
| Session.ToggleMode | src/app.rs:56-62 | Search to Scrolling, Scrolling to a fresh Search, Create kept (see `Session.ToggleModeTwice`) |
| Session.ToggleCreationMode | src/app.rs:64-74 | Create to Scrolling, otherwise an empty form over the loaded tags (see `Session.ToggleCreationTwice`) |
| Session.Reset | src/app.rs:76-84 | both lists reloaded without a filter, the filter cleared (see `Session.ResetEffect`) |
| Session.ChangeActiveWindow | src/app.rs:86-101 | the active pane of Search or Create moves one step; Scrolling unchanged (see `Session.WindowCycle`, `Session.ChangeWindowThrice`) |
| Session.SyncBmarks | src/app.rs:103-111 | remote list, batch insert, both lists reloaded (see `Session.SyncBmarksStores`) |
| Session.ResolveEnter | src/app.rs:113-170 | Enter by mode and pane (see `Session.SearchEnterAppends`, `Session.CreateEnter`, `Session.CreateEnterInvalidUrl`, `Session.CreateEnterTags`, `Session.ScrollingEnterOpens`, `Session.ResolveEnterKeepsInv`) |
| Session.OnDelete | src/app.rs:172-188 | delete the highlighted bookmark while scrolling and reload (see `Session.OnDeleteRemoves`) |
| Session.AddChar | src/app.rs:207-239 | a typed key edits the active buffer and, in Search, reruns the search (see `Session.AddCharSearch`, `Session.AddCharElsewhere`, `Session.AddCharKeepsInv`) |
| Session.ToggleModeTwice | src/app.rs:56-62 | Scrolling↔Search, a fresh search each time; Create stays as it is |
| Session.ToggleCreationTwice | src/app.rs:64-74 | F3 twice: Scrolling back to Scrolling, Create to an empty form over the loaded tags, Search to Scrolling |
| Session.ChangeWindowThrice | src/app.rs:86-101 | three Tabs restore the state in every mode |
| Session.SearchEnterAppends | src/app.rs:113-128 | Enter in Search appends the selected tag to the filter without deduplication and refetches bookmarks; tags untouched; a repeated tag yields the same bookmarks |
| Session.CreateEnterInvalidUrl | src/app.rs:129-151 | a link that does not parse is an error with nothing changed, mode still Create |
| Session.CreateEnter | src/app.rs:129-151 | succeeds iff the transaction does; then the bookmark is stored with `Some(title)` and the chosen tags, `bookmarks`, `tags` and both lists are reloaded under the filter with nothing selected, and mode is Scrolling; on failure nothing changes |
| Session.CreateEnterTags | src/app.rs:152-159 | Enter on the tag pane appends the selected tag to the chosen tags, repeats allowed; mode stays Create |
| Session.ScrollingEnterOpens | src/app.rs:162-168 | Enter while scrolling hands the selected bookmark's URL to the browser; failure to launch is an error; state unchanged |
| Session.OnDeleteRemoves | src/app.rs:172-188 | no-op outside Scrolling or without selection; otherwise deletes that id, which no longer shows, and refetches `bookmarks` and their list, unselected, under the filter; tags, filter and mode stay |
| Session.ResetEffect | src/app.rs:76-84 | reset shows every stored bookmark and every tag, unselected, and clears the filter; `bookmarks`, `tags`, mode and database stay |
| Session.ResetAfterFilter | src/app.rs:76-84 | after filtering, reset shows the unfiltered bookmarks and all tags but keeps the filtered `bookmarks` that searches run over; tags and mode stay |
| Session.AddCharSearch | src/app.rs:207-226 | typed into a search pane: buffer edited, then at most 15 results shown unselected, each titled and matching the buffer; fails iff a titled id is out of u32, leaving the edited buffer |
| Session.AddCharSearchRanked | src/app.rs:207-226 | with the invariant, a successful non-empty search shows min(15, matches) titled bookmarks by non-increasing score, and all matches when there are at most 15 |
| Session.AddCharElsewhere | src/app.rs:227-238 | in Create only the title or link buffer changes; elsewhere nothing |
| Session.SyncBmarksStores | src/app.rs:103-111 | remote or batch failure changes nothing; success shows exactly the new bookmarks in input order, with fresh keys, each item's title, URL and tag names, reloads the tags and both lists unselected, and keeps filter and mode |
| Session.ResolveEnterKeepsInv | src/app.rs:113-170 | Enter keeps the invariant |
| Session.AddCharKeepsInv | src/app.rs:207-239 | typing keeps the invariant |
| App.StatefulList.WithItems | src/app.rs:344-349 | the list value is `Session.WithItems` |
| App.StatefulList.Copy | src/app.rs:303-310 | the clone has the same items and selection |
| App.StatefulList.Next | src/app.rs:351-367 | the list value moves as `Session.Next` |
| App.StatefulList.Previous | src/app.rs:369-385 | the list value moves as `Session.Previous` |
| App.StatefulList.Unselect | src/app.rs:387-389 | the list value becomes `Session.Unselect` |
| App.RefreshState | src/app.rs:190-205 | bookmarks under the filter and all tags, each in a new unselected list |
| App.App.constructor | src/app.rs:38-54 | the state is `Session.Initial` of the repository |
| App.App.IsShouldQuit | src/app.rs:30-32 | the quit flag |
| App.App.Quit | src/app.rs:34-36 | the state becomes `Session.Quit` |
| App.App.ToggleHelp | src/app.rs:241-243 | the state becomes `Session.ToggleHelp` |
| App.App.ToggleMode | src/app.rs:56-62 | the state becomes `Session.ToggleMode` |
| App.App.ToggleCreationMode | src/app.rs:64-74 | the state becomes `Session.ToggleCreationMode` |
| App.App.Reset | src/app.rs:76-84 | the state becomes `Session.Reset` |
| App.App.ChangeActiveWindow | src/app.rs:86-101 | the state becomes `Session.ChangeActiveWindow` |
| App.App.SyncBmarks | src/app.rs:103-111 | result and state are `Session.SyncBmarks` |
| App.App.ResolveEnter | src/app.rs:113-170 | result, state and launched URL are `Session.ResolveEnter` |
| App.App.EnterSearch | src/app.rs:115-128 | the Search branch of Enter follows `Session.ResolveEnter` |
| App.App.EnterCreateTags | src/app.rs:152-159 | the tag-pane branch of Enter in Create follows `Session.ResolveEnter` |
| App.App.EnterCreateStore | src/app.rs:129-151 | the title/link-pane branch of Enter in Create follows `Session.ResolveEnter`, storing through the repository |
| App.App.EnterScrolling | src/app.rs:162-168 | the Scrolling branch of Enter follows `Session.ResolveEnter` and changes nothing |
| App.App.ReloadAndScroll | src/app.rs:142-149 | both lists reloaded from the database under the filter, unselected, and the mode Scrolling |
| App.App.ShowBatch | src/app.rs:105-108 | the list shows exactly the given bookmarks, tags reloaded, mode unchanged |
| App.App.OnDelete | src/app.rs:172-188 | result and state are `Session.OnDelete` |
| App.App.AddChar | src/app.rs:207-239 | result and state are `Session.AddChar` |
| Update.Dispatch | src/update.rs:6-66 | the key table of `update` (see `Update.QuitOnlyByQuitKeys`, `Update.FunctionKeys`, `Update.CommandKeys`, `Update.OtherKeysAreTyped`, `Update.DispatchKeepsInv`) |
| Update.LeftKey | src/update.rs:22-32 | Left by mode and pane (see `Update.LeftKeyRoutes`) |
| Update.DownKey | src/update.rs:33-45 | Down by mode and pane (see `Update.DownUpInCreate`, `Update.DownThenUp`) |
| Update.UpKey | src/update.rs:46-58 | Up by mode and pane (see `Update.DownUpInCreate`, `Update.DownThenUp`) |
| Update.Update | src/update.rs:6-66 | result, state and launched URL are `Update.Dispatch` |
| Update.OnLeft | src/update.rs:22-32 | result and state are `Update.LeftKey` |
| Update.OnDown | src/update.rs:33-45 | the state becomes `Update.DownKey` |
| Update.OnUp | src/update.rs:46-58 | the state becomes `Update.UpKey` |
| Update.QuitOnlyByQuitKeys | src/update.rs:8-9 | Esc and exact Ctrl+c quit, and no other key sets the quit flag |
| Update.PlainCIsTyped | src/update.rs:9-63 | `c` with any modifiers but exactly CONTROL goes to `add_char` |
| Update.OtherKeysAreTyped | src/update.rs:63 | every key without a command goes to `add_char` |
| Update.HelpTwice | src/update.rs:10-12 | F1 flips only the help flag; twice is no change |
| Update.FunctionKeys | src/update.rs:13-21 | F3, F5, F12 run toggle-creation, sync and reset |
| Update.LeftKeyRoutes | src/update.rs:22-32 | Left unselects tags on the search tag pane, is typed on other search panes, unselects bookmarks while scrolling, no-op in Create |
| Update.DownUpInCreate | src/update.rs:33-58 | in Create, Down/Up move only the form's tag list and only on the tag pane |
| Update.DownThenUp | src/update.rs:33-58 | Down then Up with a selection restores the state in every mode |
| Update.CommandKeys | src/update.rs:59-62 | Enter, Delete, backquote and Tab run their operations, errors propagated |
| Update.CursorMovesKeepInv | src/update.rs:33-58 | Down and Up keep the invariant |
| Update.LeftKeyKeepsInv | src/update.rs:22-32 | Left keeps the invariant |
| Update.DispatchKeepsInv | src/update.rs:6-66 | every key keeps the invariant: selections in range, database consistent |

## Left out

- Presentation, the event loop, settings and the remote service's HTTP and JSON handling are not part of this model. The remote list reaches `sync_bmarks` as `World.remote`.
- `Repo::new`: environment, pool creation and migrations are I/O. The model starts from `Store.Empty`.
- Asynchrony: every operation is one sequential step.
- `Url.Parse` is a stand-in for the WHATWG parser, not the standard itself. It accepts a scheme (a letter, then letters, digits, `+`, `-`, `.`), a colon and a non-empty rest; it lowers the scheme and keeps the rest. It keeps the property the store relies on: serialising and re-parsing is lossless.
- The `simsearch` relevance is an uninterpreted `Scorer`. A positive score is a match. The engine's stop words and tokenising are inside it. Among equal scores the model keeps insertion order; the library's tie order is not modelled.
- The `tui_input` key handling is an uninterpreted edit step on `Input`.
- `open::that` is a boolean parameter: did the launch succeed.
- I/O errors of plain queries (`fetch_all`, tag reads, `delete`) are not modelled. Those statements cannot fail except `fetch_one`'s `RowNotFound`. Inside transactions any statement can fail (`faults`).
- Store.Db: keys come from counters that only grow, starting at 1. SQLite may reuse the highest freed rowid instead. Counter exhaustion beyond i64 is the `StatementFailed` error.
- Store.Delete: junction rows are not removed. Cascading deletes and the unique tag-name constraint live in migrations that are not part of this model. Under the schema's cascade this is harmless. In the model keys are never reused, so a left-over junction row is never joined again; under SQLite's rowid reuse without the cascade, left-over rows would re-attach to the bookmark that takes the freed key.
- Store.TagCreate: the unique constraint on tag names lives in migrations that are not part of this model. Whether the database refuses an insert is the input `refused`, so the model does not promise that a duplicate name is rejected.
- Transactions.InsertTag: a failed name lookup inside `batch_create` reads as "not found", as the source's `if let Ok` does. With a fault there, the model can insert a second row under an existing name, which the real schema would refuse. One tag per name across a batch (`Transactions.BatchCreateSharesTags`) is proved only when no statement fails.
- Store.Aggregate: rows come in ascending key order and the packed tag string follows junction-row order. SQL leaves both orders unspecified; the model fixes this one.
- BookmarkSearch.Rank: ties among equal scores keep insertion order, an assumption about the library.
- Session.SearchingParams: the field `tags` is never read by the application and is carried unchanged.

Where the documented behaviour and the code differ, the model follows the code:

- Tab cycles Title→Tags→Link (app.rs:86-101), not the documented Title→Link→Tags.
- `add_char` in a search pane keeps the edited buffer when the search fails (app.rs:212-214).
- `sync_bmarks` sets `bookmarks` to just the batch's result, not to all stored bookmarks (app.rs:105).
- The filter-side parser reads a numeric tag name as an id, shown by `TagString.NumericNameReadAsId` and `TagString.NumericNameExample`. The model keeps this as written.
