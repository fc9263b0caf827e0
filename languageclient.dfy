/**
 * The language client's own logic: `convertDocumentation`, which rewrites
 * the `(solargraph:X)` links of a text and then escapes its first `<` and
 * its first `>`; the hover and completion-resolve middleware built on it;
 * the choice of transport; and the gem-version check sent once the client
 * is ready.
 */
module LanguageClient {
  import opened Js
  import opened Editor
  import opened LinkRewriter

  /** `replace('<', '&lt;')`, then `replace('>', '&gt;')`: the first of each only. */
  function Escaped(s: string): string
  {
    ReplaceFirst(ReplaceFirst(s, "<", "&lt;"), ">", "&gt;")
  }

  /** The trusted Markdown `convertDocumentation` makes of a text. */
  function Converted(text: string): MarkdownString
  {
    MarkdownString(Escaped(Rewritten(Markdown, text, 0)), true)
  }

  /** `convertDocumentation(text)`: the link rewrite, then the escaping of the rewritten text. */
  method ConvertDocumentation(text: string) returns (md: MarkdownString)
    ensures md == Converted(text)
  {
    var adjusted := RewriteLinks(Markdown, text);
    ReplacePlain(adjusted, "<", "&lt;");
    adjusted := ReplaceFirstPattern(adjusted, "<", "&lt;");
    ReplacePlain(adjusted, ">", "&gt;");
    adjusted := ReplaceFirstPattern(adjusted, ">", "&gt;");
    md := MarkdownString(adjusted, true);
  }

  /** Only the first `<` and the first `>` are escaped; every later one is left as it is. */
  lemma EscapesFirstOnly(a: string, b: string, c: string)
    requires '<' !in a && '>' !in a && '>' !in b
    ensures Escaped(a + "<" + b + ">" + c) == a + "&lt;" + b + "&gt;" + c
  {
    ReplaceFirstChar(a, '<', b + ">" + c, "&lt;");
    assert a + "<" + b + ">" + c == a + ['<'] + (b + ">" + c);
    assert a + "&lt;" + (b + ">" + c) == (a + "&lt;" + b) + ['>'] + c;
    assert '>' !in a + "&lt;" + b;
    ReplaceFirstChar(a + "&lt;" + b, '>', c, "&gt;");
  }

  /** A text without `<` and `>` is not changed by the escaping. */
  lemma NoAnglesKept(s: string)
    requires '<' !in s && '>' !in s
    ensures Escaped(s) == s
  {
    ReplaceAbsentChar(s, '<', "&lt;");
    ReplaceAbsentChar(s, '>', "&gt;");
  }

  /** The hover middleware: one converted entry per original entry, in order. */
  method HoverContents(contents: seq<string>) returns (entries: seq<MarkdownString>)
    ensures |entries| == |contents|
    ensures forall i :: 0 <= i < |contents| ==> entries[i] == Converted(contents[i])
  {
    entries := [];
    var i := 0;
    while i < |contents|
      invariant i <= |contents| && |entries| == i
      invariant forall j :: 0 <= j < i ==> entries[j] == Converted(contents[j])
    {
      var md := ConvertDocumentation(contents[i]);
      AppendEntry(entries, md, contents, i);
      entries := entries + [md];
      i := i + 1;
    }
  }

  lemma AppendEntry(entries: seq<MarkdownString>, md: MarkdownString, contents: seq<string>, i: nat)
    requires i < |contents| && |entries| == i && md == Converted(contents[i])
    requires forall j :: 0 <= j < i ==> entries[j] == Converted(contents[j])
    ensures forall j :: 0 <= j < i + 1 ==> (entries + [md])[j] == Converted(contents[j])
  {
  }

  /** The documentation of a completion item: none, a string, or Markdown content with a `value`. */
  datatype Documentation = Absent | PlainDoc(text: string) | Markup(md: MarkdownString)

  /** The documentation after `resolveCompletionItem`: a falsy one is kept, a string or a `value` is converted. */
  function ResolvedDoc(d: Documentation): (r: Documentation)
    ensures d.Absent? || d == PlainDoc("") ==> r == d
    ensures d.PlainDoc? && d.text != "" ==> r == Markup(Converted(d.text))
    ensures d.Markup? ==> r == Markup(Converted(d.md.value))
  {
    match d
    case Absent => d
    case PlainDoc(t) => if t == "" then d else Markup(Converted(t))
    case Markup(md) => Markup(Converted(md.value))
  }

  /** A documentation string without links and angle brackets keeps its text and becomes trusted Markdown. */
  lemma PlainDocTrusted(t: string)
    requires t != "" && '<' !in t && '>' !in t
    requires forall k: nat :: !MarkerAt(Markdown, t, k)
    ensures ResolvedDoc(PlainDoc(t)) == Markup(MarkdownString(t, true))
  {
    NoMarkerUnchanged(Markdown, t);
    NoAnglesKept(t);
  }

  /** The completion item the resolve middleware receives, whose documentation it overwrites. */
  class Item {
    var documentation: Documentation

    constructor (documentation: Documentation)
      ensures this.documentation == documentation
    {
      this.documentation := documentation;
    }
  }

  /** `resolveCompletionItem`: converts a truthy documentation in place, from its `value` when it has one. */
  method ResolveCompletionItem(item: Item)
    modifies item
    ensures item.documentation == ResolvedDoc(old(item.documentation))
  {
    match item.documentation
    case Absent =>
    case PlainDoc(t) =>
      if t != "" {
        var md := ConvertDocumentation(t);
        item.documentation := Markup(md);
      }
    case Markup(m) =>
      var md := ConvertDocumentation(m.value);
      item.documentation := Markup(md);
  }

  /** The three transports `selectClient` chooses between. */
  datatype ClientKind = Stdio | Socket | External

  /** `selectClient`: `'stdio'` and `'socket'` by name; any other setting, unset included, is the external server. */
  function SelectClient(transport: JsText): (k: ClientKind)
    ensures k == Stdio <==> transport == Text("stdio")
    ensures k == Socket <==> transport == Text("socket")
    ensures k == External <==> transport != Text("stdio") && transport != Text("socket")
  {
    if transport == Text("stdio") then Stdio
    else if transport == Text("socket") then Socket
    else External
  }

  /** How the chosen server options connect. */
  datatype Transport = SpawnedChild(args: seq<string>) | Connected(host: string, port: string) | Failed

  /**
   * The promise the server options settle: a `stdio` child; the socket
   * provider's port on the local host once it has started (`started`), or a
   * rejection; or the configured external host and port.
   */
  function Connect(k: ClientKind, started: Option<string>, host: string, port: string): (t: Transport)
    ensures k == Stdio ==> t == SpawnedChild(["stdio"])
    ensures k == Socket ==> (t.Failed? <==> started.None?)
    ensures k == Socket && started.Some? ==> t == Connected("localhost", started.value)
    ensures k == External ==> t == Connected(host, port)
  {
    match k
    case Stdio => SpawnedChild(["stdio"])
    case Socket => if started.Some? then Connected("localhost", started.value) else Failed
    case External => Connected(host, port)
  }

  /** A notification sent to the server. */
  datatype Notification = Notification(name: string, verbose: bool)

  /** On ready: `$/solargraph/checkGemVersion` with `verbose: false` exactly when the setting is truthy. */
  function OnReady(checkGemVersion: bool): (r: Option<Notification>)
    ensures r.Some? <==> checkGemVersion
    ensures r.Some? ==> r.value == Notification("$/solargraph/checkGemVersion", false)
  {
    if checkGemVersion then Some(Notification("$/solargraph/checkGemVersion", false)) else None
  }
}
