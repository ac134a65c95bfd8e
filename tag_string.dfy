/** adapters/sqlite.rs, `fetch_all`: the packed tag string and its two
    client-side parsers.

    The query aggregates a bookmark's tags as
    `group_concat(t.id || ',' || t.name)`, so a bookmark with tags
    `(1, "go"), (2, "rust")` arrives as `"1,go,2,rust"`. The filter reads it
    with `split(',')`, `trim` and overlapping `windows(2)`; the materialiser
    with `split(',')` and non-overlapping `chunks(2)`, without `trim`. */
module TagString {
  import opened Wrappers
  import opened Text
  import opened Tags

  /** `t.id || ',' || t.name`. */
  function PairText(t: Tag): string {
    IntToDecimal(t.id) + "," + t.name
  }

  function PairTexts(ts: seq<Tag>): (r: seq<string>)
    ensures |r| == |ts| && forall i :: 0 <= i < |ts| ==> r[i] == PairText(ts[i])
  {
    seq(|ts|, i requires 0 <= i < |ts| => PairText(ts[i]))
  }

  /** `group_concat` over the joined tag rows: `NULL` when there are none. */
  function GroupConcat(ts: seq<Tag>): (r: Option<string>)
    ensures r.None? <==> ts == []
  {
    if ts == [] then None else Some(Join(PairTexts(ts)))
  }

  /** The pieces `split(',')` should see: id, name, id, name, ... */
  function Tokens(ts: seq<Tag>): (r: seq<string>)
    ensures |r| == 2 * |ts|
  {
    if ts == [] then [] else [IntToDecimal(ts[0].id), ts[0].name] + Tokens(ts[1..])
  }

  predicate NamesWithoutComma(ts: seq<Tag>) {
    forall i :: 0 <= i < |ts| ==> NoComma(ts[i].name)
  }

  predicate IdsInI64(ts: seq<Tag>) {
    forall i :: 0 <= i < |ts| ==> InI64(ts[i].id)
  }

  /** `Join` over two leading pieces. */
  lemma JoinTwo(a: string, b: string, rest: seq<string>)
    ensures rest == [] ==> Join([a, b] + rest) == a + "," + b
    ensures rest != [] ==> Join([a, b] + rest) == a + "," + b + "," + Join(rest)
  {
    assert ([a, b] + rest)[1..] == [b] + rest;
    assert ([b] + rest)[1..] == rest;
  }

  lemma {:induction false} JoinPairTexts(ts: seq<Tag>)
    requires ts != []
    ensures Join(PairTexts(ts)) == Join(Tokens(ts))
  {
    var d, n := IntToDecimal(ts[0].id), ts[0].name;
    assert Tokens(ts) == [d, n] + Tokens(ts[1..]);
    JoinTwo(d, n, Tokens(ts[1..]));
    if |ts| > 1 {
      JoinPairTexts(ts[1..]);
      var tail := Join(PairTexts(ts[1..]));
      assert PairTexts(ts)[1..] == PairTexts(ts[1..]);
      assert Join(PairTexts(ts)) == (d + "," + n) + "," + tail;
      assert (d + "," + n) + "," + tail == d + "," + n + "," + tail;
    }
  }

  lemma {:induction false} TokensWithoutComma(ts: seq<Tag>)
    requires NamesWithoutComma(ts)
    ensures forall i :: 0 <= i < |Tokens(ts)| ==> NoComma(Tokens(ts)[i])
  {
    if ts != [] {
      DecimalHasNoComma(ts[0].id);
      TokensWithoutComma(ts[1..]);
    }
  }

  /** When no name holds a comma, `split(',')` recovers the id and name pieces. */
  lemma SplitGroupConcat(ts: seq<Tag>)
    requires ts != [] && NamesWithoutComma(ts)
    ensures Split(GroupConcat(ts).value) == Tokens(ts)
  {
    JoinPairTexts(ts);
    TokensWithoutComma(ts);
    SplitJoin(Tokens(ts));
  }

  // ---------------------------------------------------------------------
  // The filter-side parser (sqlite.rs:81-99)

  /** `.map(str::trim)`. */
  function TrimAll(toks: seq<string>): (r: seq<string>)
    ensures |r| == |toks|
  {
    if toks == [] then [] else [Trim(toks[0])] + TrimAll(toks[1..])
  }

  /** `.windows(2).filter_map(..)`: every adjacent pair whose first piece
      parses as an `i64`, overlapping, so a name can sit in the id slot. */
  function WindowPairs(toks: seq<string>): (r: seq<(int, string)>)
    ensures |r| <= |toks|
  {
    if |toks| < 2 then []
    else
      (match ParseI64(toks[0])
       case Some(n) => [(n, toks[1])]
       case None => [])
      + WindowPairs(toks[1..])
  }

  function PairIds(ps: seq<(int, string)>): (r: seq<int>)
    ensures |r| == |ps| && forall i :: 0 <= i < |ps| ==> r[i] == ps[i].0
  {
    seq(|ps|, i requires 0 <= i < |ps| => ps[i].0)
  }

  /** `bmark_tags_ids`: the ids the filter reads out of a packed tag string. */
  function FilterTagIds(tags: string): seq<int> {
    PairIds(WindowPairs(TrimAll(Split(tags))))
  }

  /** What the filter reads out of the packed tags of `ts`: each tag's id
      with its trimmed name, and, between two tags, the next tag's id text
      paired with the previous name whenever that name (trimmed) reads as an
      `i64`. */
  function ReadPairs(ts: seq<Tag>): seq<(int, string)> {
    if ts == [] then []
    else
      [(ts[0].id, Trim(ts[0].name))]
      + (if |ts| > 1 && ParseI64(Trim(ts[0].name)).Some?
         then [(ParseI64(Trim(ts[0].name)).value, IntToDecimal(ts[1].id))]
         else [])
      + ReadPairs(ts[1..])
  }

  predicate NoNumericName(ts: seq<Tag>) {
    forall i :: 0 <= i < |ts| ==> ParseI64(Trim(ts[i].name)).None?
  }

  lemma WindowPairsAtId(d: string, n: string, rest: seq<string>, id: int)
    requires ParseI64(d) == Some(id)
    ensures WindowPairs([d, n] + rest) == [(id, n)] + WindowPairs([n] + rest)
  {
    assert ([d, n] + rest)[1..] == [n] + rest;
  }

  lemma WindowPairsAfterName(n: string, rest: seq<string>)
    ensures rest == [] ==> WindowPairs([n] + rest) == []
    ensures rest != [] ==>
              WindowPairs([n] + rest) ==
              (if ParseI64(n).Some? then [(ParseI64(n).value, rest[0])] else []) + WindowPairs(rest)
  {
    if rest != [] {
      assert ([n] + rest)[1..] == rest;
    }
  }

  lemma TrimmedTokens(ts: seq<Tag>)
    requires ts != []
    ensures TrimAll(Tokens(ts)) == [IntToDecimal(ts[0].id), Trim(ts[0].name)] + TrimAll(Tokens(ts[1..]))
  {
    TrimAllTwo(IntToDecimal(ts[0].id), ts[0].name, Tokens(ts[1..]));
    TrimDecimal(ts[0].id);
  }

  lemma TrimAllTwo(a: string, b: string, rest: seq<string>)
    ensures TrimAll([a, b] + rest) == [Trim(a), Trim(b)] + TrimAll(rest)
  {
    assert ([a, b] + rest)[1..] == [b] + rest;
    assert ([b] + rest)[1..] == rest;
  }

  /** The id and name pieces of the first tag, then whatever the name pairs with. */
  lemma WindowPairsFirstTag(ts: seq<Tag>)
    requires ts != [] && InI64(ts[0].id)
    ensures WindowPairs(TrimAll(Tokens(ts))) ==
            [(ts[0].id, Trim(ts[0].name))] + WindowPairs([Trim(ts[0].name)] + TrimAll(Tokens(ts[1..])))
  {
    TrimmedTokens(ts);
    ParseI64OfDecimal(ts[0].id);
    WindowPairsAtId(IntToDecimal(ts[0].id), Trim(ts[0].name), TrimAll(Tokens(ts[1..])), ts[0].id);
  }

  /** The name of the first tag pairs with the id piece of the second. */
  lemma WindowPairsSecondTag(ts: seq<Tag>)
    requires |ts| > 1
    ensures WindowPairs([Trim(ts[0].name)] + TrimAll(Tokens(ts[1..]))) ==
            (if ParseI64(Trim(ts[0].name)).Some?
             then [(ParseI64(Trim(ts[0].name)).value, IntToDecimal(ts[1].id))] else [])
            + WindowPairs(TrimAll(Tokens(ts[1..])))
  {
    TrimmedTokens(ts[1..]);
    WindowPairsAfterName(Trim(ts[0].name), TrimAll(Tokens(ts[1..])));
  }

  lemma ConcatAssoc<T>(a: seq<T>, b: seq<T>, c: seq<T>)
    ensures a + b + c == a + (b + c)
  {
  }

  /** `ReadPairs` of a non-empty list, grouped to the right. */
  lemma ReadPairsUnfold(ts: seq<Tag>)
    requires ts != []
    ensures ReadPairs(ts) ==
            [(ts[0].id, Trim(ts[0].name))]
            + ((if |ts| > 1 && ParseI64(Trim(ts[0].name)).Some?
                then [(ParseI64(Trim(ts[0].name)).value, IntToDecimal(ts[1].id))] else [])
               + ReadPairs(ts[1..]))
  {
    var a := [(ts[0].id, Trim(ts[0].name))];
    var x := if |ts| > 1 && ParseI64(Trim(ts[0].name)).Some?
             then [(ParseI64(Trim(ts[0].name)).value, IntToDecimal(ts[1].id))] else [];
    assert ReadPairs(ts) == a + x + ReadPairs(ts[1..]);
    ConcatAssoc(a, x, ReadPairs(ts[1..]));
  }

  lemma {:induction false} WindowPairsOfTokens(ts: seq<Tag>)
    requires IdsInI64(ts)
    ensures WindowPairs(TrimAll(Tokens(ts))) == ReadPairs(ts)
  {
    if ts != [] {
      ReadPairsUnfold(ts);
      WindowPairsFirstTag(ts);
      if |ts| > 1 {
        WindowPairsSecondTag(ts);
        WindowPairsOfTokens(ts[1..]);
      } else {
        WindowPairsAfterName(Trim(ts[0].name), []);
        assert TrimAll(Tokens(ts[1..])) == [];
      }
    }
  }

  /** What the filter reads out of a packed tag string, exactly. */
  lemma FilterTagIdsRead(ts: seq<Tag>)
    requires ts != [] && NamesWithoutComma(ts) && IdsInI64(ts)
    ensures FilterTagIds(GroupConcat(ts).value) == PairIds(ReadPairs(ts))
  {
    SplitGroupConcat(ts);
    WindowPairsOfTokens(ts);
  }

  lemma {:induction false} ReadPairsWithoutNumericNames(ts: seq<Tag>)
    requires NoNumericName(ts)
    ensures PairIds(ReadPairs(ts)) == Ids(ts)
  {
    if ts != [] {
      ReadPairsWithoutNumericNames(ts[1..]);
      assert Ids(ts) == [ts[0].id] + Ids(ts[1..]);
    }
  }

  /** The filter reads exactly the tag ids of the row, provided no tag name
      holds a comma or reads (trimmed) as an `i64`. */
  lemma FilterTagIdsExact(ts: seq<Tag>)
    requires ts != [] && NamesWithoutComma(ts) && IdsInI64(ts) && NoNumericName(ts)
    ensures FilterTagIds(GroupConcat(ts).value) == Ids(ts)
  {
    FilterTagIdsRead(ts);
    ReadPairsWithoutNumericNames(ts);
  }

  lemma SmallNumbers()
    ensures IntToDecimal(1) == "1" && IntToDecimal(2) == "2" && IntToDecimal(5) == "5"
    ensures ParseI64("1") == Some(1) && ParseI64("5") == Some(5)
    ensures Trim("5") == "5" && Trim("x") == "x"
  {
    ParseI64OfDecimal(1);
    ParseI64OfDecimal(5);
  }

  lemma {:induction false} ReadPairsAtNumericName(ts: seq<Tag>, i: nat, n: int)
    requires i + 1 < |ts| && ParseI64(Trim(ts[i].name)) == Some(n)
    ensures (n, IntToDecimal(ts[i + 1].id)) in ReadPairs(ts)
  {
    if i > 0 {
      ReadPairsAtNumericName(ts[1..], i - 1, n);
    }
  }

  /** A tag name that reads (trimmed) as an `i64` is taken for an id
      whenever another tag follows it, whether or not any tag has that id. */
  lemma NumericNameReadAsId(ts: seq<Tag>, i: nat, n: int)
    requires NamesWithoutComma(ts) && IdsInI64(ts)
    requires i + 1 < |ts| && ParseI64(Trim(ts[i].name)) == Some(n)
    ensures n in FilterTagIds(GroupConcat(ts).value)
  {
    FilterTagIdsRead(ts);
    ReadPairsAtNumericName(ts, i, n);
    var ps := ReadPairs(ts);
    var k :| 0 <= k < |ps| && ps[k] == (n, IntToDecimal(ts[i + 1].id));
    assert PairIds(ps)[k] == n;
  }

  /** The case above with an id no tag carries: `(1, "5"), (2, "x")`. */
  lemma NumericNameExample(ts: seq<Tag>)
    requires ts == [Tag(1, "5"), Tag(2, "x")]
    ensures 5 in FilterTagIds(GroupConcat(ts).value) && 5 !in Ids(ts)
  {
    SmallNumbers();
    assert NoComma(ts[0].name) && NoComma(ts[1].name);
    NumericNameReadAsId(ts, 0, 5);
  }

  // ---------------------------------------------------------------------
  // The materialiser (sqlite.rs:120-137)

  /** `.chunks(2).map(..)`: a pair with an `i64` id becomes that tag; a pair
      whose id does not parse, or a lone trailing piece, becomes `Tag::default()`. */
  function ChunkTags(toks: seq<string>): (r: seq<Tag>)
    ensures |r| == (|toks| + 1) / 2
  {
    if toks == [] then []
    else if |toks| == 1 then [Default]
    else
      (match ParseI64(toks[0])
       case Some(id) => [Tag(id, toks[1])]
       case None => [Default])
      + ChunkTags(toks[2..])
  }

  /** `record.tags.as_ref().map(..)`: `NULL` stays absent. */
  function MaterializeTags(tags: Option<string>): (r: Option<seq<Tag>>)
    ensures r.None? <==> tags.None?
  {
    match tags
    case None => None
    case Some(s) => Some(ChunkTags(Split(s)))
  }

  lemma {:induction false} ChunkTagsOfTokens(ts: seq<Tag>)
    requires IdsInI64(ts)
    ensures ChunkTags(Tokens(ts)) == ts
  {
    if ts != [] {
      ParseI64OfDecimal(ts[0].id);
      var toks := Tokens(ts);
      assert toks[2..] == Tokens(ts[1..]);
      ChunkTagsOfTokens(ts[1..]);
    }
  }

  /** Packing a bookmark's tags and reading them back gives the same tags in
      the same order, except that no tags at all comes back as absent
      (`None`), not as an empty list. */
  lemma MaterializeGroupConcat(ts: seq<Tag>)
    requires NamesWithoutComma(ts) && IdsInI64(ts)
    ensures MaterializeTags(GroupConcat(ts)) == if ts == [] then None else Some(ts)
  {
    if ts != [] {
      SplitGroupConcat(ts);
      ChunkTagsOfTokens(ts);
    }
  }

  lemma PackedCommaName()
    ensures GroupConcat([Tag(1, "a,b")]) == Some("1,a,b")
  {
    SmallNumbers();
    assert PairText(Tag(1, "a,b")) == "1,a,b";
    assert PairTexts([Tag(1, "a,b")]) == ["1,a,b"];
  }

  lemma SplitCommaName()
    ensures Split("1,a,b") == ["1", "a", "b"]
  {
    SplitAfterWord("1", "a,b");
    SplitAfterWord("a", "b");
    SplitWord("b");
  }

  lemma ChunkCommaName()
    ensures ChunkTags(["1", "a", "b"]) == [Tag(1, "a"), Default]
  {
    SmallNumbers();
    assert ["1", "a", "b"][2..] == ["b"];
  }

  /** A comma inside a name shifts the pairing: `(1, "a,b")` comes back as
      `(1, "a")` followed by the placeholder. */
  lemma CommaInNameShiftsPairs()
    ensures MaterializeTags(GroupConcat([Tag(1, "a,b")])) == Some([Tag(1, "a"), Default])
  {
    PackedCommaName();
    SplitCommaName();
    ChunkCommaName();
  }
}
