/**
 * The extension's activation code: the hover middleware that turns the
 * `(solargraph:X)` links of every hover entry into command links, and the
 * label of the documentation page that the two open commands compute from
 * the page URI's `query` variable.
 */
module Extension {
  import opened Js
  import opened Editor
  import opened Query
  import opened LinkRewriter

  /** The hover entry the middleware builds from one original entry: every link rewritten, trusted. */
  function TrustedEntry(value: string): MarkdownString
  {
    MarkdownString(Rewritten(Markdown, value, 0), true)
  }

  /** The `forEach` of the hover middleware: one trusted entry per original entry, in order. */
  method HoverContents(contents: seq<string>) returns (entries: seq<MarkdownString>)
    ensures |entries| == |contents|
    ensures forall i :: 0 <= i < |contents| ==> entries[i] == TrustedEntry(contents[i])
  {
    entries := [];
    var i := 0;
    while i < |contents|
      invariant i <= |contents| && |entries| == i
      invariant forall j :: 0 <= j < i ==> entries[j] == TrustedEntry(contents[j])
    {
      var adjusted := RewriteLinks(Markdown, contents[i]);
      entries := entries + [MarkdownString(adjusted, true)];
      i := i + 1;
    }
  }

  /** An entry holding no `(solargraph:` is shown as it came. */
  lemma PlainEntryKept(value: string)
    requires forall k: nat :: !MarkerAt(Markdown, value, k)
    ensures TrustedEntry(value) == MarkdownString(value, true)
  {
    NoMarkerUnchanged(Markdown, value);
  }

  /** What `getQueryVariable` returns: the value of a matching pair (perhaps `undefined`), or `false`. */
  datatype Lookup = Found(value: JsText) | NotFound

  /** The value of the first pair from index i on whose key is `variable`. */
  function FirstValue(vars: seq<string>, variable: string, i: nat): (r: Lookup)
    decreases |vars| - i
  {
    if i >= |vars| then NotFound
    else if Key(vars[i]) == variable then Found(Value(vars[i]))
    else FirstValue(vars, variable, i + 1)
  }

  /** `getQueryVariable(query, variable)`: the first `&`-separated pair whose key matches wins. */
  method GetQueryVariable(query: string, variable: string) returns (r: Lookup)
    ensures r == FirstValue(Split(query, '&'), variable, 0)
  {
    var vars := Split(query, '&');
    var i := 0;
    while i < |vars|
      invariant i <= |vars|
      invariant FirstValue(vars, variable, i) == FirstValue(vars, variable, 0)
    {
      var pair := Split(vars[i], '=');
      if pair[0] == variable {
        return Found(At(pair, 1));
      }
      i := i + 1;
    }
    return NotFound;
  }

  /** The first matching pair decides, whatever pairs with the same key follow. */
  lemma {:induction false} FirstMatchWins(vars: seq<string>, variable: string, i: nat, j: nat)
    requires i <= j < |vars| && Key(vars[j]) == variable
    requires forall k :: i <= k < j ==> Key(vars[k]) != variable
    ensures FirstValue(vars, variable, i) == Found(Value(vars[j]))
    decreases j - i
  {
    if i < j {
      FirstMatchWins(vars, variable, i + 1, j);
    }
  }

  /** With no matching key the result is `false`. */
  lemma {:induction false} NoMatchIsFalse(vars: seq<string>, variable: string, i: nat)
    requires forall k :: i <= k < |vars| ==> Key(vars[k]) != variable
    ensures FirstValue(vars, variable, i) == NotFound
    decreases |vars| - i
  {
    if i < |vars| {
      NoMatchIsFalse(vars, variable, i + 1);
    }
  }

  /** The result concatenated into a string: `undefined` and `false` show as words. */
  function LookupText(r: Lookup): string
  {
    match r
    case Found(v) => ToStr(v)
    case NotFound => "false"
  }

  /** The label of a documentation page: `Search for ` and the query on `/search`, the query alone elsewhere. */
  function Label(uri: Uri): (title: string)
  {
    (if uri.path == "/search" then "Search for " else "") + LookupText(FirstValue(Split(uri.query, '&'), "query", 0))
  }

  /** The label expression of `solargraph._openDocument` and `solargraph._openDocumentUrl`. */
  method OpenDocumentLabel(uri: Uri) returns (title: string)
    ensures title == Label(uri)
  {
    var value := GetQueryVariable(uri.query, "query");
    title := (if uri.path == "/search" then "Search for " else "") + LookupText(value);
  }

  /** A search page for `term` is labelled `Search for term`; any other page with that query, just `term`. */
  lemma LabelOfQuery(uri: Uri, term: string)
    requires uri.query == "query=" + term && '=' !in term && '&' !in term
    ensures uri.path == "/search" ==> Label(uri) == "Search for " + term
    ensures uri.path != "/search" ==> Label(uri) == term
  {
    assert uri.query == Join(["query=" + term], "&");
    SplitJoin(["query=" + term], '&');
    assert "query=" + term == Join(["query", term] + [], "=");
    PairOf("query", term, []);
  }

  /** A page whose query has no `query` key is labelled with the word `false`. */
  lemma LabelWithoutQuery(uri: Uri)
    requires forall k :: 0 <= k < |Split(uri.query, '&')| ==> Key(Split(uri.query, '&')[k]) != "query"
    ensures Label(uri) == (if uri.path == "/search" then "Search for false" else "false")
  {
    NoMatchIsFalse(Split(uri.query, '&'), "query", 0);
  }
}
