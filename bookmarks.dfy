/** models/bookmarks.rs: the bookmark records and the `String` <-> `BookmarkUrl`
    conversions. The forwarding functions are in module `Repos`. */
module Bookmarks {
  import opened Wrappers
  import opened Url
  import opened Tags

  /** `BookmarkUrl { inner: Url }`. */
  datatype BookmarkUrl = BookmarkUrl(inner: Url)

  /** `From<BookmarkUrl> for String`: the URL's serialisation, which parses
      back to the same URL. */
  function UrlIntoString(u: BookmarkUrl): (s: string)
    ensures Parse(s) == Some(u.inner)
  {
    ParseSerialize(u.inner);
    Serialize(u.inner)
  }

  /** `From<String> for BookmarkUrl`. The source panics when the text is not
      a URL; here that is the precondition. */
  function UrlFromString(s: string): (u: BookmarkUrl)
    requires Parse(s).Some?
    ensures UrlIntoString(u) == Serialize(Parse(s).value)
    ensures Parse(UrlIntoString(u)) == Parse(s)
  {
    BookmarkUrl(Parse(s).value)
  }

  /** Converting to text and back is the identity on `BookmarkUrl`. */
  lemma UrlStringRoundTrip(u: BookmarkUrl)
    ensures UrlFromString(UrlIntoString(u)) == u
  {
  }

  /** `Bookmark`: `tags == None` means "not loaded", `Some([])` "no tags". */
  datatype Bookmark = Bookmark(id: int, title: Option<string>, url: BookmarkUrl, tags: Option<seq<Tag>>)

  /** `NewBookmarkParams` (its `new` is this constructor): what the remote
      source hands to `batch_create`. */
  datatype NewBookmarkParams = NewBookmarkParams(title: Option<string>, url: Url, tags: seq<string>)

  /** `RawBookmark`: one row of the aggregating query, tags still packed in a string. */
  datatype RawBookmark = RawBookmark(id: int, title: Option<string>, url: BookmarkUrl, tags: Option<string>)

  /** `Bookmark::new`: id, title and tags are stored verbatim and the URL
      text is converted; a text that is the serialisation of a URL gives
      back exactly that URL. */
  function NewBookmark(id: int, title: Option<string>, url: string, tags: Option<seq<Tag>>): (b: Bookmark)
    requires Parse(url).Some?
    ensures b.id == id && b.title == title && b.tags == tags
    ensures UrlIntoString(b.url) == Serialize(Parse(url).value)
    ensures forall u: Url :: url == Serialize(u) ==> b.url.inner == u
  {
    assert forall u: Url :: url == Serialize(u) ==> Parse(url) == Some(u) by {
      forall u: Url | url == Serialize(u) ensures Parse(url) == Some(u) { ParseSerialize(u); }
    }
    Bookmark(id, title, UrlFromString(url), tags)
  }
}
