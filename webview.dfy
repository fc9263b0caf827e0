/**
 * The documentation webviews: a registry with at most one panel per URI
 * string, the request each `open` sends (the method named after the URI's
 * path, the parameters parsed from its query), and the answer shown in the
 * panel with its `"solargraph:X"` attribute links turned into command links.
 */
module Webview {
  import opened Js
  import opened Editor
  import opened Query
  import opened LinkRewriter

  /** `languageClient.sendRequest(name, params)`. */
  datatype Request = Request(name: string, params: map<string, JsText>)

  /** The object `parseQuery` builds from the first n parts: each part sets its key, later parts overwriting earlier ones. */
  function Params(parts: seq<string>, n: nat): map<string, JsText>
    requires n <= |parts|
  {
    if n == 0 then map[]
    else Params(parts, n - 1)[Key(parts[n - 1]) := Value(parts[n - 1])]
  }

  /** `parseQuery(query)`: the `forEach` over the `&`-separated parts. */
  method ParseQuery(query: string) returns (result: map<string, JsText>)
    ensures result == Params(Split(query, '&'), |Split(query, '&')|)
  {
    result := map[];
    var parts := Split(query, '&');
    var i := 0;
    while i < |parts|
      invariant i <= |parts| && result == Params(parts, i)
    {
      var frag := Split(parts[i], '=');
      result := result[frag[0] := At(frag, 1)];
      i := i + 1;
    }
  }

  /** Every key of the first n parts is in the object, and no other. */
  lemma {:induction false} ParamsKeys(parts: seq<string>, n: nat, key: string)
    requires n <= |parts|
    ensures key in Params(parts, n) <==> exists i :: 0 <= i < n && Key(parts[i]) == key
  {
    if n > 0 {
      ParamsKeys(parts, n - 1, key);
      if Key(parts[n - 1]) == key {
        assert 0 <= n - 1 < n && Key(parts[n - 1]) == key;
      }
    }
  }

  /** A duplicated key takes the value of its last part. */
  lemma {:induction false} LastPartWins(parts: seq<string>, n: nat, j: nat)
    requires j < n <= |parts|
    requires forall l :: j < l < n ==> Key(parts[l]) != Key(parts[j])
    ensures Key(parts[j]) in Params(parts, n) && Params(parts, n)[Key(parts[j])] == Value(parts[j])
  {
    if j < n - 1 {
      LastPartWins(parts, n - 1, j);
    }
  }

  /** `convertDocumentation(text)`: every `"solargraph:X"` attribute becomes a command link. */
  method ConvertDocumentation(text: string) returns (converted: string)
    ensures converted == Rewritten(HtmlAttribute, text, 0)
  {
    converted := RewriteLinks(HtmlAttribute, text);
  }

  /** HTML without `"solargraph:` is shown as it came. */
  lemma PlainHtmlKept(text: string)
    requires forall k: nat :: !MarkerAt(HtmlAttribute, text, k)
    ensures Rewritten(HtmlAttribute, text, 0) == text
  {
    NoMarkerUnchanged(HtmlAttribute, text);
  }

  /** The placeholder a new panel shows. */
  const Loading: string := "Loading..."

  class WebviewProvider {
    /** The open panels by URI string, each as the HTML it shows. */
    var views: map<string, string>

    constructor ()
      ensures views == map[]
    {
      views := map[];
    }

    /** `open(uri)`: reuses the panel of the URI string or creates one showing `Loading...`, then sends the request. */
    method Open(uri: Uri) returns (request: Request, created: bool)
      modifies this
      ensures request == Request("$/solargraph" + uri.path, Params(Split(uri.query, '&'), |Split(uri.query, '&')|))
      ensures created <==> uri.text !in old(views)
      ensures views == if created then old(views)[uri.text := Loading] else old(views)
    {
      var uriString := uri.text;
      var name := "$/solargraph" + uri.path;
      var query := ParseQuery(uri.query);
      created := uriString !in views;
      if created {
        views := views[uriString := Loading];
      }
      request := Request(name, query);
    }

    /** The panel's dispose handler: deletes its own entry only. */
    method OnDispose(uriString: string)
      modifies this
      ensures views == old(views) - {uriString}
    {
      views := views - {uriString};
    }

    /** The answer to an `open` request: shown, converted, when the panel is still open, and dropped otherwise. */
    method OnResponse(uriString: string, content: string) returns (shown: bool)
      modifies this
      ensures shown <==> uriString in old(views)
      ensures views == if shown then old(views)[uriString := Rewritten(HtmlAttribute, content, 0)] else old(views)
    {
      shown := uriString in views;
      if shown {
        var converted := ConvertDocumentation(content);
        views := views[uriString := converted];
      }
    }
  }
}
