/** models/tags.rs: the `Tag` record. The tag store operations and the
    forwarding functions live in the `Store`, `Sqlite` and `Repos` modules. */
module Tags {

  /** A tag row: `id` is an `i64` primary key, `name` free text. */
  datatype Tag = Tag(id: int, name: string)

  /** `Tag::default()` (derived): the placeholder the tag-string parser emits. */
  const Default: Tag := Tag(0, "")

  /** `Tag::new`. */
  function New(id: int, name: string): (t: Tag)
    ensures t.id == id && t.name == name
    ensures t == Default <==> id == 0 && name == ""
  {
    Tag(id, name)
  }

  /** The ids of a list of tags, in order (`.map(|tag| tag.id)`). */
  function Ids(ts: seq<Tag>): (r: seq<int>)
    ensures |r| == |ts| && forall i :: 0 <= i < |ts| ==> r[i] == ts[i].id
  {
    seq(|ts|, i requires 0 <= i < |ts| => ts[i].id)
  }
}
