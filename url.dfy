/** A stand-in for the `url` crate, which implements the "URL parsing"
    section of the WHATWG URL Standard. Only the part the repository relies
    on is kept: a string is accepted when it starts with a scheme (an ASCII
    letter followed by letters, digits, `+`, `-` or `.`) followed by `:` and
    a non-empty remainder; the scheme is lower-cased, as the standard does,
    and serialisation writes the parts back. The full standard (hosts, paths,
    percent-encoding, relative references) is not part of this model. */
module Url {
  import opened Wrappers

  predicate IsAsciiAlpha(c: char) { 'a' <= c <= 'z' || 'A' <= c <= 'Z' }

  predicate IsSchemeChar(c: char) {
    IsAsciiAlpha(c) || '0' <= c <= '9' || c == '+' || c == '-' || c == '.'
  }

  /** A scheme as the parser leaves it: non-empty, starting with a letter, lower case. */
  predicate IsSerializedScheme(s: string) {
    |s| >= 1 && IsAsciiAlpha(s[0])
    && forall i :: 0 <= i < |s| ==> IsSchemeChar(s[i]) && !('A' <= s[i] <= 'Z')
  }

  datatype UrlParts = UrlParts(scheme: string, rest: string)

  predicate WellFormed(u: UrlParts) { IsSerializedScheme(u.scheme) && |u.rest| >= 1 }

  /** A parsed URL; only `Parse` produces these. */
  type Url = u: UrlParts | WellFormed(u) witness UrlParts("a", "b")

  function LowerChar(c: char): char {
    if 'A' <= c <= 'Z' then (c as int + 32) as char else c
  }

  function LowerAscii(s: string): (r: string)
    ensures |r| == |s|
    ensures forall i :: 0 <= i < |s| ==> r[i] == LowerChar(s[i])
  {
    if s == [] then [] else [LowerChar(s[0])] + LowerAscii(s[1..])
  }

  /** Index of the first `:` in `s`, if any. */
  function ColonIndex(s: string): (r: Option<nat>)
    ensures r.Some? ==> r.value < |s| && s[r.value] == ':' && ':' !in s[..r.value]
    ensures r.None? ==> ':' !in s
  {
    if s == [] then None
    else if s[0] == ':' then Some(0)
    else match ColonIndex(s[1..])
      case None => None
      case Some(k) => assert s[..k + 1] == [s[0]] + s[1..][..k]; Some(k + 1)
  }

  predicate IsSchemeCandidate(s: string) {
    |s| >= 1 && IsAsciiAlpha(s[0]) && forall i :: 0 <= i < |s| ==> IsSchemeChar(s[i])
  }

  /** `Url::parse`: `None` is the `ParseError` case. */
  function Parse(s: string): (r: Option<Url>)
    ensures r.Some? ==> |Serialize(r.value)| == |s|
  {
    match ColonIndex(s)
    case None => None
    case Some(k) =>
      var scheme := s[..k];
      if IsSchemeCandidate(scheme) && k + 1 < |s| then
        Some(UrlParts(LowerAscii(scheme), s[k + 1..]))
      else None
  }

  /** `Url::to_string`: the serialisation of a parsed URL. */
  function Serialize(u: Url): string {
    u.scheme + ":" + u.rest
  }

  /** Serialising a parsed URL and parsing the text again gives the same URL:
      the round trip `String -> BookmarkUrl -> String -> BookmarkUrl` used by
      the store is lossless. */
  lemma ParseSerialize(u: Url)
    ensures Parse(Serialize(u)) == Some(u)
  {
    var s := Serialize(u);
    var k := |u.scheme|;
    assert s[k] == ':' && s[..k] == u.scheme;
    assert ':' !in s[..k] by {
      forall i | 0 <= i < k ensures s[i] != ':' { assert IsSchemeChar(u.scheme[i]); }
    }
    assert ColonIndex(s) == Some(k);
    assert LowerAscii(u.scheme) == u.scheme;
    assert s[k + 1..] == u.rest;
  }

  /** Parsing only lower-cases the scheme: serialising the result gives back
      the input with its scheme in lower case. */
  lemma SerializeOfParse(s: string, k: nat)
    requires Parse(s).Some? && k < |s| && s[k] == ':' && ':' !in s[..k]
    ensures Serialize(Parse(s).value) == LowerAscii(s[..k]) + s[k..]
  {
    assert ColonIndex(s) == Some(k);
    assert s[k..] == ":" + s[k + 1..];
  }

  /** Text with no scheme, the empty link buffer among it, is rejected. */
  lemma NoColonRejected(s: string)
    requires ':' !in s
    ensures Parse(s) == None
  {
  }
}
