/**
 * The content provider of `solargraph:` documents: a cache of page bodies
 * by URI string, filled by fetches from the local server, with `remove` and
 * a refetch of every cached page. The dictionary's keys are kept in the
 * order JavaScript enumerates them, which is insertion order.
 */
module DocumentProvider {
  import opened Js
  import opened Editor
  import opened Cache

  const Scheme: string := "solargraph:"
  const LocalServer: string := "http://localhost:"

  /** `raw.replace(/^solargraph:/, "http://localhost:")`: the page URL on the local server. */
  function FetchUrl(raw: string): (url: string)
    ensures StartsWith(raw, Scheme) ==> url == LocalServer + raw[|Scheme|..]
    ensures !StartsWith(raw, Scheme) ==> url == raw
  {
    if StartsWith(raw, Scheme) then LocalServer + raw[|Scheme|..] else raw
  }

  /** A `solargraph:` URI is fetched from the same path on the local server. */
  lemma FetchUrlOfPage(rest: string)
    ensures FetchUrl(Scheme + rest) == LocalServer + rest
  {
    assert (Scheme + rest)[..|Scheme|] == Scheme;
    assert (Scheme + rest)[|Scheme|..] == rest;
  }

  /** No two entries of s are equal. */
  predicate Distinct(s: seq<string>)
  {
    forall i, j :: 0 <= i < j < |s| ==> s[i] != s[j]
  }

  /** s without the entry x. */
  function Without(s: seq<string>, x: string): (r: seq<string>)
    ensures forall y :: y in r <==> y in s && y != x
    ensures Distinct(s) ==> Distinct(r)
  {
    if |s| == 0 then []
    else
      var rest := Without(s[1..], x);
      assert forall y :: y in s[1..] ==> y in s;
      if s[0] == x then rest
      else
        assert Distinct(s) ==> s[0] !in s[1..];
        [s[0]] + rest
  }

  /** The page URL of every key, in order. */
  function Urls(keys: seq<string>, rawOf: string -> string): (urls: seq<string>)
    ensures |urls| == |keys|
    ensures forall i :: 0 <= i < |keys| ==> urls[i] == FetchUrl(rawOf(keys[i]))
  {
    seq(|keys|, i requires 0 <= i < |keys| => FetchUrl(rawOf(keys[i])))
  }

  class SolargraphDocumentProvider {
    /** The cached bodies by URI string, and their keys in enumeration order. */
    var docs: map<string, JsText>
    var keys: seq<string>

    ghost predicate Valid()
      reads this
    {
      Distinct(keys) && forall k :: k in docs <==> k in keys
    }

    constructor ()
      ensures Valid() && docs == map[] && keys == []
    {
      docs, keys := map[], [];
    }

    /** `provideTextDocumentContent(uri)`: a missing or empty entry starts a fetch and shows `Loading...`; a stored body is returned. */
    method Provide(uri: Uri) returns (content: string, fetch: Option<string>)
      ensures fetch.Some? <==> !Stored(docs, uri.text)
      ensures fetch.Some? ==> fetch.value == FetchUrl(uri.raw)
      ensures Stored(docs, uri.text) ==> content == docs[uri.text].s
      ensures !Stored(docs, uri.text) ==> content == Loading
    {
      fetch := None;
      if !Stored(docs, uri.text) {
        fetch := Some(FetchUrl(uri.raw));
      }
      content := Shown(docs, uri.text);
    }

    /** The answer to a fetch: the body overwrites the entry, and a change fires for that URI. */
    method OnResponse(uri: Uri, body: JsText) returns (changed: string)
      requires Valid()
      modifies this
      ensures Valid()
      ensures docs == old(docs)[uri.text := body]
      ensures keys == if uri.text in old(docs) then old(keys) else old(keys) + [uri.text]
      ensures changed == uri.text
    {
      if uri.text !in docs {
        keys := keys + [uri.text];
      }
      docs := docs[uri.text := body];
      changed := uri.text;
    }

    /** `remove(uri)`: deletes that entry only. */
    method Remove(uri: Uri)
      requires Valid()
      modifies this
      ensures Valid()
      ensures docs == old(docs) - {uri.text}
      ensures keys == Without(old(keys), uri.text)
    {
      docs := docs - {uri.text};
      keys := Without(keys, uri.text);
    }

    /** `updateAll()`: one fetch per stored key, in enumeration order; `rawOf` is `Uri.parse(key).toString(true)`. */
    method UpdateAll(rawOf: string -> string) returns (urls: seq<string>)
      requires Valid()
      ensures urls == Urls(keys, rawOf)
      ensures forall k :: k in docs <==> exists i :: 0 <= i < |urls| && keys[i] == k && urls[i] == FetchUrl(rawOf(k))
    {
      urls := [];
      var i := 0;
      while i < |keys|
        invariant i <= |keys| && |urls| == i
        invariant forall j :: 0 <= j < i ==> urls[j] == FetchUrl(rawOf(keys[j]))
      {
        urls := urls + [FetchUrl(rawOf(keys[i]))];
        i := i + 1;
      }
      forall k | k in docs
        ensures exists i :: 0 <= i < |urls| && keys[i] == k && urls[i] == FetchUrl(rawOf(k))
      {
        var j :| 0 <= j < |keys| && keys[j] == k;
        assert urls[j] == FetchUrl(rawOf(keys[j]));
      }
    }
  }
}
