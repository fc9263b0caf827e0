/**
 * The content provider of YARD documentation pages: a cache of page bodies
 * by URI string, filled by fetches from the YARD server on the port fixed
 * at construction.
 */
module YardContent {
  import opened Js
  import opened Editor
  import opened Cache

  /** `request.get` of the page: the URL and the form fields `query` and `workspace`. */
  datatype YardRequest = YardRequest(url: string, query: string, workspace: JsText)

  class YardContentProvider {
    /** The port of the YARD server, set once by the constructor. */
    const port: string
    /** The cached bodies by URI string. */
    var docs: map<string, JsText>

    constructor (port: string)
      ensures this.port == port && docs == map[]
    {
      this.port := port;
      docs := map[];
    }

    /** `update(uri)`: the request for the page; `rootPath` is `vscode.workspace.rootPath`. */
    function Update(uri: Uri, rootPath: JsText): (r: YardRequest)
      ensures r.url == "http://localhost:" + port + uri.path
      ensures r.query == uri.query && r.workspace == rootPath
    {
      YardRequest("http://localhost:" + port + uri.path, uri.query, rootPath)
    }

    /** `provideTextDocumentContent(uri)`: a missing or empty entry starts a fetch and shows `Loading...`; a stored body is returned. */
    method Provide(uri: Uri, rootPath: JsText) returns (content: string, fetch: Option<YardRequest>)
      ensures fetch.Some? <==> !Stored(docs, uri.text)
      ensures fetch.Some? ==> fetch.value == Update(uri, rootPath)
      ensures Stored(docs, uri.text) ==> content == docs[uri.text].s
      ensures !Stored(docs, uri.text) ==> content == Loading
    {
      fetch := None;
      if !Stored(docs, uri.text) {
        fetch := Some(Update(uri, rootPath));
      }
      content := Shown(docs, uri.text);
    }

    /** The answer to a fetch: the body is stored under the URI string and a change fires for that URI. */
    method OnResponse(uri: Uri, body: JsText) returns (changed: string)
      modifies this
      ensures docs == old(docs)[uri.text := body]
      ensures changed == uri.text
    {
      docs := docs[uri.text := body];
      changed := uri.text;
    }
  }
}
