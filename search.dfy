/** app.rs:246-276, the free function `search`: fuzzy search over the
    loaded bookmarks, by title or by URL.

    The search engine is the `simsearch` library. Its relevance measure is
    a parameter here (`Scorer`): a positive score is a match. The engine
    keeps one entry per id (inserting an id again replaces its entry) and
    answers with the ids of the matching entries, best score first; among
    equal scores the model keeps insertion order. */
module BookmarkSearch {
  import opened Wrappers
  import opened Bookmarks

  const U32_MAX: int := 0xFFFF_FFFF

  /** `.take(15)`. */
  const MaxResults: nat := 15

  /** The engine's relevance of an entry's text for a pattern. */
  type Scorer = (string, string) -> int

  /** `i64 -> u32` succeeds. */
  predicate InU32(n: int) { 0 <= n <= U32_MAX }

  /** An engine entry: the `u32` key and the indexed text. */
  datatype Entry = Entry(id: int, text: string)

  /** What a bookmark is indexed by: its title, or the text of its URL. */
  function IndexText(b: Bookmark, forTitles: bool): string
    requires b.title.Some?
  {
    if forTitles then b.title.value else UrlIntoString(b.url)
  }

  /** The bookmark `b` was indexed as `e`. */
  predicate IndexedAs(b: Bookmark, e: Entry, forTitles: bool) {
    b.title.Some? && b.id == e.id && InU32(e.id) && e.text == IndexText(b, forTitles)
  }

  predicate UniqueEntryIds(engine: seq<Entry>) {
    forall i, j :: 0 <= i < j < |engine| ==> engine[i].id != engine[j].id
  }

  /** `engine.insert(id, text)`: the old entry for `id`, if any, goes. */
  function Insert(engine: seq<Entry>, e: Entry): (r: seq<Entry>)
    ensures forall x :: x in r <==> x == e || (x in engine && x.id != e.id)
    ensures UniqueEntryIds(engine) ==> UniqueEntryIds(r)
  {
    if engine == [] then [e]
    else if engine[0].id == e.id then Insert(engine[1..], e)
    else [engine[0]] + Insert(engine[1..], e)
  }

  /** The loop filling the engine (app.rs:258-266), over titled bookmarks
      in order; a key outside `u32` stops it with an error. Every entry is
      some titled bookmark's, and the loop fails exactly when a titled
      bookmark's key does not fit. */
  function Fill(bs: seq<Bookmark>, forTitles: bool): (r: Result<seq<Entry>, Error>)
    ensures r.Success? ==> UniqueEntryIds(r.value)
    ensures r.Success? ==>
              forall e :: e in r.value ==> exists i :: 0 <= i < |bs| && IndexedAs(bs[i], e, forTitles)
    ensures r.Failure? <==> exists i :: 0 <= i < |bs| && bs[i].title.Some? && !InU32(bs[i].id)
    ensures r.Failure? ==> r.error == IdOutOfRange
    decreases |bs|
  {
    if bs == [] then Success([])
    else
      var init, b := bs[..|bs| - 1], bs[|bs| - 1];
      assert forall i :: 0 <= i < |init| ==> init[i] == bs[i];
      match Fill(init, forTitles)
      case Failure(e) => Failure(e)
      case Success(engine) =>
        if b.title.None? then Success(engine)
        else if !InU32(b.id) then Failure(IdOutOfRange)
        else Success(Insert(engine, Entry(b.id, IndexText(b, forTitles))))
  }

  lemma {:induction false} FillFailurePrefix(bs: seq<Bookmark>, forTitles: bool, k: nat)
    requires k <= |bs| && Fill(bs[..k], forTitles).Failure?
    ensures Fill(bs, forTitles).Failure?
  {
    var i :| 0 <= i < k && bs[..k][i].title.Some? && !InU32(bs[..k][i].id);
    assert bs[i] == bs[..k][i];
  }

  /** Descending by score. */
  predicate Ranked(es: seq<Entry>, pattern: string, score: Scorer) {
    forall i, j :: 0 <= i < j < |es| ==> score(pattern, es[i].text) >= score(pattern, es[j].text)
  }

  lemma RankedCons(h: Entry, rest: seq<Entry>, pattern: string, score: Scorer)
    requires Ranked(rest, pattern, score)
    requires forall x :: x in rest ==> score(pattern, x.text) <= score(pattern, h.text)
    ensures Ranked([h] + rest, pattern, score)
  {
    var r := [h] + rest;
    forall i, j | 0 <= i < j < |r| ensures score(pattern, r[i].text) >= score(pattern, r[j].text) {
      assert r[j] == rest[j - 1];
      if i > 0 {
        assert r[i] == rest[i - 1];
      }
    }
  }

  /** Places `e` after every entry scoring at least as much. */
  function InsertRanked(e: Entry, es: seq<Entry>, pattern: string, score: Scorer): (r: seq<Entry>)
    ensures multiset(r) == multiset(es) + multiset{e}
  {
    if es == [] then [e]
    else if score(pattern, e.text) > score(pattern, es[0].text) then [e] + es
    else
      assert es == [es[0]] + es[1..];
      [es[0]] + InsertRanked(e, es[1..], pattern, score)
  }

  lemma {:induction false} InsertRankedKeepsOrder(e: Entry, es: seq<Entry>, pattern: string, score: Scorer)
    requires Ranked(es, pattern, score)
    ensures Ranked(InsertRanked(e, es, pattern, score), pattern, score)
  {
    if es == [] {
    } else if score(pattern, e.text) > score(pattern, es[0].text) {
      RankedCons(e, es, pattern, score);
    } else {
      var h, tail := es[0], es[1..];
      assert es == [h] + tail;
      var rest := InsertRanked(e, tail, pattern, score);
      InsertRankedKeepsOrder(e, tail, pattern, score);
      forall x | x in rest ensures score(pattern, x.text) <= score(pattern, h.text) {
        assert x in multiset(rest);
        if x != e {
          assert x in multiset(tail);
          var k :| 0 <= k < |tail| && tail[k] == x;
          assert es[k + 1] == x;
        }
      }
      RankedCons(h, rest, pattern, score);
    }
  }

  /** `engine.search(pattern)`: the matching entries, best first. */
  function Rank(engine: seq<Entry>, pattern: string, score: Scorer): (r: seq<Entry>)
    ensures Ranked(r, pattern, score)
    ensures forall e :: e in r <==> e in engine && score(pattern, e.text) > 0
    decreases |engine|
  {
    if engine == [] then []
    else
      var init, e := engine[..|engine| - 1], engine[|engine| - 1];
      assert engine == init + [e];
      var prev := Rank(init, pattern, score);
      if score(pattern, e.text) > 0 then
        var r := InsertRanked(e, prev, pattern, score);
        InsertRankedKeepsOrder(e, prev, pattern, score);
        assert forall x :: x in r <==> x in multiset(r);
        r
      else prev
  }

  /** `bookmarks.iter().find(|b| b.id == id)`. */
  function FindFirst(bs: seq<Bookmark>, id: int): (r: Option<Bookmark>)
    ensures r.Some? ==> r.value in bs && r.value.id == id
    ensures r.None? <==> forall b :: b in bs ==> b.id != id
  {
    if bs == [] then None
    else if bs[0].id == id then Some(bs[0])
    else FindFirst(bs[1..], id)
  }

  /** `.filter_map(|id| find ..)` over the ranked entries: an entry whose
      id some bookmark has contributes the first such bookmark, in entry
      order; when every entry's id is present, the result lines up with
      the entries one for one. */
  function FindAll(bs: seq<Bookmark>, es: seq<Entry>): (r: seq<Bookmark>)
    ensures |r| <= |es|
    ensures forall x :: x in r ==> x in bs
    ensures forall k :: 0 <= k < |es| && FindFirst(bs, es[k].id).Some? ==> FindFirst(bs, es[k].id).value in r
    ensures (forall k :: 0 <= k < |es| ==> FindFirst(bs, es[k].id).Some?) ==>
              |r| == |es| && forall k :: 0 <= k < |es| ==> r[k] == FindFirst(bs, es[k].id).value
    decreases |es|
  {
    if es == [] then []
    else
      var rest := FindAll(bs, es[1..]);
      match FindFirst(bs, es[0].id)
      case None => rest
      case Some(b) => [b] + rest
  }

  /** `.take(n)`: the first `n` elements, or all of them when fewer. */
  function Take<T>(s: seq<T>, n: nat): (r: seq<T>)
    ensures |r| == (if |s| < n then |s| else n) && r <= s
  {
    if |s| <= n then s else s[..n]
  }

  /** `search(bookmarks, search_string, for_titles)`. An empty pattern
      returns the input unchanged. */
  function SearchResult(bs: seq<Bookmark>, pattern: string, forTitles: bool, score: Scorer): (r: Result<seq<Bookmark>, Error>)
    ensures pattern == "" ==> r == Success(bs)
  {
    if pattern == "" then Success(bs)
    else
      match Fill(bs, forTitles)
      case Failure(e) => Failure(e)
      case Success(engine) => Success(Take(FindAll(bs, Rank(engine, pattern, score)), MaxResults))
  }

  /** The engine-filling loop runs, the rest is the pipeline. */
  method Search(bs: seq<Bookmark>, pattern: string, forTitles: bool, score: Scorer)
    returns (r: Result<seq<Bookmark>, Error>)
    ensures r == SearchResult(bs, pattern, forTitles, score)
  {
    if pattern == "" {
      return Success(bs);
    }
    var engine: seq<Entry> := [];
    for i := 0 to |bs|
      invariant Fill(bs[..i], forTitles) == Success(engine)
    {
      assert bs[..i + 1][..i] == bs[..i];
      var b := bs[i];
      if b.title.Some? {
        if !InU32(b.id) {
          FillFailurePrefix(bs, forTitles, i + 1);
          return Failure(IdOutOfRange);
        }
        engine := Insert(engine, Entry(b.id, IndexText(b, forTitles)));
      }
    }
    assert bs[..|bs|] == bs;
    var ranked := Rank(engine, pattern, score);
    var found := FindAll(bs, ranked);
    return Success(Take(found, MaxResults));
  }

  // ---------------------------------------------------------------------
  // What `search` promises

  /** A non-empty search fails exactly when a titled bookmark's key does
      not fit in `u32`; otherwise it returns at most 15 bookmarks, all from
      its input. */
  lemma SearchBounds(bs: seq<Bookmark>, pattern: string, forTitles: bool, score: Scorer)
    requires pattern != ""
    ensures var r := SearchResult(bs, pattern, forTitles, score);
            (r.Failure? <==> exists i :: 0 <= i < |bs| && bs[i].title.Some? && !InU32(bs[i].id)) &&
            (r.Failure? ==> r.error == IdOutOfRange) &&
            (r.Success? ==> |r.value| <= MaxResults && forall x :: x in r.value ==> x in bs)
  {
    var r := SearchResult(bs, pattern, forTitles, score);
    if r.Success? {
      var found := FindAll(bs, Rank(Fill(bs, forTitles).value, pattern, score));
      forall x | x in r.value ensures x in bs {
        assert x in found;
      }
    }
  }

  predicate UniqueIds(bs: seq<Bookmark>) {
    forall i, j :: 0 <= i < j < |bs| ==> bs[i].id != bs[j].id
  }

  /** With distinct keys, the bookmark found for an entry is the bookmark
      that was indexed as it. */
  lemma FoundIsIndexed(bs: seq<Bookmark>, e: Entry, forTitles: bool, i: int)
    requires UniqueIds(bs) && 0 <= i < |bs| && IndexedAs(bs[i], e, forTitles)
    ensures FindFirst(bs, e.id) == Some(bs[i])
  {
    var b := FindFirst(bs, e.id).value;
    var k :| 0 <= k < |bs| && bs[k] == b;
    assert k == i;
  }

  lemma {:induction false} FindAllIndexed(bs: seq<Bookmark>, es: seq<Entry>, forTitles: bool, pattern: string, score: Scorer)
    requires UniqueIds(bs)
    requires forall e :: e in es ==> score(pattern, e.text) > 0 && exists i :: 0 <= i < |bs| && IndexedAs(bs[i], e, forTitles)
    ensures forall x :: x in FindAll(bs, es) ==> x.title.Some? && score(pattern, IndexText(x, forTitles)) > 0
  {
    if es != [] {
      FindAllIndexed(bs, es[1..], forTitles, pattern, score);
      var i :| 0 <= i < |bs| && IndexedAs(bs[i], es[0], forTitles);
      FoundIsIndexed(bs, es[0], forTitles, i);
    }
  }

  /** With distinct keys, every bookmark a non-empty search returns has a
      title and matches the pattern on the searched text, so an untitled
      bookmark is never returned, not even when searching by URL. */
  lemma SearchMatches(bs: seq<Bookmark>, pattern: string, forTitles: bool, score: Scorer)
    requires pattern != "" && UniqueIds(bs)
    ensures var r := SearchResult(bs, pattern, forTitles, score);
            r.Success? ==> forall x :: x in r.value ==> x.title.Some? && score(pattern, IndexText(x, forTitles)) > 0
  {
    var r := SearchResult(bs, pattern, forTitles, score);
    if r.Success? {
      var ranked := Rank(Fill(bs, forTitles).value, pattern, score);
      FindAllIndexed(bs, ranked, forTitles, pattern, score);
      forall x | x in r.value ensures x.title.Some? && score(pattern, IndexText(x, forTitles)) > 0 {
        assert x in FindAll(bs, ranked);
      }
    }
  }

  // ---------------------------------------------------------------------
  // Completeness and ranking

  /** With distinct keys, a successful fill holds an entry for every
      titled bookmark, keyed by its id and holding its searched text. */
  lemma {:induction false} FillComplete(bs: seq<Bookmark>, forTitles: bool)
    requires UniqueIds(bs) && Fill(bs, forTitles).Success?
    ensures forall i :: 0 <= i < |bs| && bs[i].title.Some? ==>
              Entry(bs[i].id, IndexText(bs[i], forTitles)) in Fill(bs, forTitles).value
    decreases |bs|
  {
    if bs != [] {
      var init, b := bs[..|bs| - 1], bs[|bs| - 1];
      assert forall i :: 0 <= i < |init| ==> init[i] == bs[i];
      assert Fill(init, forTitles).Success?;
      FillComplete(init, forTitles);
      var engine := Fill(init, forTitles).value;
      assert bs == init + [b];
      FillCompleteStep(init, b, engine, Fill(bs, forTitles).value, forTitles);
    }
  }

  lemma FillCompleteStep(init: seq<Bookmark>, b: Bookmark, engine: seq<Entry>, engine2: seq<Entry>, forTitles: bool)
    requires forall i :: 0 <= i < |init| ==> init[i].id != b.id
    requires forall i :: 0 <= i < |init| && init[i].title.Some? ==>
               Entry(init[i].id, IndexText(init[i], forTitles)) in engine
    requires engine2 == if b.title.None? then engine else Insert(engine, Entry(b.id, IndexText(b, forTitles)))
    ensures forall i :: 0 <= i < |init + [b]| && (init + [b])[i].title.Some? ==>
              Entry((init + [b])[i].id, IndexText((init + [b])[i], forTitles)) in engine2
  {
    forall i | 0 <= i < |init + [b]| && (init + [b])[i].title.Some?
      ensures Entry((init + [b])[i].id, IndexText((init + [b])[i], forTitles)) in engine2
    {
      if i < |init| {
        assert (init + [b])[i] == init[i];
      }
    }
  }

  /** The entries of a fill name titled bookmarks of `bs`, which with
      distinct keys resolve to exactly the bookmark they index, in order. */
  lemma {:induction false} FindAllResolves(bs: seq<Bookmark>, es: seq<Entry>, forTitles: bool)
    requires UniqueIds(bs)
    requires forall e :: e in es ==> exists i :: 0 <= i < |bs| && IndexedAs(bs[i], e, forTitles)
    ensures |FindAll(bs, es)| == |es|
    ensures forall k :: 0 <= k < |es| ==> FindAll(bs, es)[k] in bs && IndexedAs(FindAll(bs, es)[k], es[k], forTitles)
  {
    forall k | 0 <= k < |es| ensures FindFirst(bs, es[k].id).Some? && IndexedAs(FindFirst(bs, es[k].id).value, es[k], forTitles) {
      assert es[k] in es;
      var i :| 0 <= i < |bs| && IndexedAs(bs[i], es[k], forTitles);
      FoundIsIndexed(bs, es[k], forTitles, i);
    }
  }

  /** A successful non-empty search with distinct keys is the first 15 of
      the bookmarks the ranked entries index, one per entry, in order. */
  lemma SearchLinesUp(bs: seq<Bookmark>, pattern: string, forTitles: bool, score: Scorer)
    requires pattern != "" && UniqueIds(bs) && Fill(bs, forTitles).Success?
    ensures var ranked := Rank(Fill(bs, forTitles).value, pattern, score);
            var found := FindAll(bs, ranked);
            SearchResult(bs, pattern, forTitles, score) == Success(Take(found, MaxResults)) &&
            |found| == |ranked| &&
            forall k :: 0 <= k < |found| ==> found[k] in bs && IndexedAs(found[k], ranked[k], forTitles)
  {
    FindAllResolves(bs, Rank(Fill(bs, forTitles).value, pattern, score), forTitles);
  }

  /** A successful non-empty search, with distinct keys, returns as many
      bookmarks as there are matches, up to 15, all titled, best score
      first. */
  lemma SearchOrdered(bs: seq<Bookmark>, pattern: string, forTitles: bool, score: Scorer)
    requires pattern != "" && UniqueIds(bs) && Fill(bs, forTitles).Success?
    ensures var r, n := SearchResult(bs, pattern, forTitles, score).value,
                        |Rank(Fill(bs, forTitles).value, pattern, score)|;
            |r| == (if n < MaxResults then n else MaxResults) &&
            (forall i :: 0 <= i < |r| ==> r[i].title.Some?) &&
            forall i, j :: 0 <= i < j < |r| ==>
              score(pattern, IndexText(r[i], forTitles)) >= score(pattern, IndexText(r[j], forTitles))
  {
    SearchLinesUp(bs, pattern, forTitles, score);
    var ranked := Rank(Fill(bs, forTitles).value, pattern, score);
    var found := FindAll(bs, ranked);
    var r := Take(found, MaxResults);
    forall i, j | 0 <= i < j < |r|
      ensures score(pattern, IndexText(r[i], forTitles)) >= score(pattern, IndexText(r[j], forTitles))
    {
      assert r[i] == found[i] && r[j] == found[j];
    }
  }

  /** No matching titled bookmark that a successful non-empty search
      leaves out scores higher than one it returns. */
  lemma SearchOmitsLower(bs: seq<Bookmark>, pattern: string, forTitles: bool, score: Scorer, b: Bookmark)
    requires pattern != "" && UniqueIds(bs) && Fill(bs, forTitles).Success?
    requires b in bs && b.title.Some? && score(pattern, IndexText(b, forTitles)) > 0
    requires b !in SearchResult(bs, pattern, forTitles, score).value
    ensures var r := SearchResult(bs, pattern, forTitles, score).value;
            forall k :: 0 <= k < |r| ==>
              r[k].title.Some? && score(pattern, IndexText(b, forTitles)) <= score(pattern, IndexText(r[k], forTitles))
  {
    SearchLinesUp(bs, pattern, forTitles, score);
    var ranked := Rank(Fill(bs, forTitles).value, pattern, score);
    var found := FindAll(bs, ranked);
    var r := Take(found, MaxResults);
    var p := MatchPosition(bs, b, forTitles, pattern, score);
    assert found[p] == b;
    forall k | 0 <= k < |r|
      ensures r[k].title.Some? && score(pattern, IndexText(b, forTitles)) <= score(pattern, IndexText(r[k], forTitles))
    {
      assert r[k] == found[k];
    }
  }

  /** When at most 15 entries match, a successful non-empty search with
      distinct keys returns every titled bookmark that matches. */
  lemma SearchComplete(bs: seq<Bookmark>, pattern: string, forTitles: bool, score: Scorer, b: Bookmark)
    requires pattern != "" && UniqueIds(bs) && Fill(bs, forTitles).Success?
    requires |Rank(Fill(bs, forTitles).value, pattern, score)| <= MaxResults
    requires b in bs && b.title.Some? && score(pattern, IndexText(b, forTitles)) > 0
    ensures b in SearchResult(bs, pattern, forTitles, score).value
  {
    SearchLinesUp(bs, pattern, forTitles, score);
    var p := MatchPosition(bs, b, forTitles, pattern, score);
    var r := SearchResult(bs, pattern, forTitles, score).value;
    assert r[p] == b;
  }

  /** Where a matching titled bookmark's entry sits among the ranked entries. */
  lemma MatchPosition(bs: seq<Bookmark>, b: Bookmark, forTitles: bool, pattern: string, score: Scorer) returns (p: nat)
    requires UniqueIds(bs) && Fill(bs, forTitles).Success?
    requires b in bs && b.title.Some? && score(pattern, IndexText(b, forTitles)) > 0
    ensures var ranked := Rank(Fill(bs, forTitles).value, pattern, score);
            p < |ranked| && ranked[p] == Entry(b.id, IndexText(b, forTitles)) &&
            p < |FindAll(bs, ranked)| && FindAll(bs, ranked)[p] == b
  {
    var engine := Fill(bs, forTitles).value;
    var ranked := Rank(engine, pattern, score);
    var i :| 0 <= i < |bs| && bs[i] == b;
    FillComplete(bs, forTitles);
    var e := Entry(b.id, IndexText(b, forTitles));
    assert e in ranked;
    p :| 0 <= p < |ranked| && ranked[p] == e;
    FindAllResolves(bs, ranked, forTitles);
    var x := FindAll(bs, ranked)[p];
    var j :| 0 <= j < |bs| && bs[j] == x;
    assert bs[j].id == bs[i].id;
  }
}
