/**
 * Small helpers shared by the providers: the Markdown link that opens the
 * documentation page of a cross-reference path, and the choice of the
 * workspace folder a document belongs to.
 */
module Helper {
  import opened Js
  import opened Encoding

  const DocumentPage: string := "solargraph:/document?"
  const OpenDocumentCommand: string := "command:solargraph._openDocument?"

  /** The page URI of a path: `path.replace('#', '%23')`, so only the FIRST `#` is escaped. */
  function DocumentUri(path: string): (u: string)
    ensures StartsWith(u, DocumentPage)
  {
    DocumentPage + ReplaceFirst(path, "#", "%23")
  }

  /** `getDocumentPageLink(path)`. */
  function DocumentPageLink(path: string): string
  {
    var href := EncodeUri(OpenDocumentCommand + JsonStringify(DocumentUri(path)));
    "[" + path + "](" + href + ")"
  }

  /** The link with its target named: the path as link text, `href` as target. */
  lemma PageLinkParts(path: string, href: string)
    requires href == EncodeUri(OpenDocumentCommand + JsonStringify(DocumentUri(path)))
    ensures DocumentPageLink(path) == "[" + path + "](" + href + ")"
  {
  }

  /** The command prefix is made of characters that encodeURI copies, so the link is the prefix and the encoded argument. */
  lemma CommandPrefixEncoded(u: string)
    ensures EncodeUri(OpenDocumentCommand + JsonStringify(u)) == OpenDocumentCommand + EncodeArgument(u)
  {
    EncodeUriAppend(OpenDocumentCommand, JsonStringify(u));
    PrefixUnescaped();
    EncodeUriIdentity(OpenDocumentCommand);
  }

  /** Every character of the command prefix is one that encodeURI copies (checked a piece at a time). */
  lemma PrefixUnescaped()
    ensures AllUnescaped(OpenDocumentCommand)
  {
    SchemePieceUnescaped();
    NamePieceUnescaped();
    CommandPieceUnescaped();
    UnescapedAppend("command:", "solargraph.");
    UnescapedAppend("command:" + "solargraph.", "_openDocument?");
    assert OpenDocumentCommand == "command:" + "solargraph." + "_openDocument?";
  }

  lemma SchemePieceUnescaped()
    ensures AllUnescaped("command:")
  {
    assert UnescapedFrom("command:", 4);
  }

  lemma NamePieceUnescaped()
    ensures AllUnescaped("solargraph.")
  {
    assert UnescapedFrom("solargraph.", 6);
    assert UnescapedFrom("solargraph.", 3);
  }

  lemma CommandPieceUnescaped()
    ensures AllUnescaped("_openDocument?")
  {
    assert UnescapedFrom("_openDocument?", 10);
    assert UnescapedFrom("_openDocument?", 5);
  }

  /** The page link spelled out: the path as link text, and the encoded page URI as the command's argument. */
  lemma PageLinkShape(path: string)
    ensures DocumentPageLink(path)
      == "[" + path + "](" + OpenDocumentCommand + EncodeArgument(DocumentUri(path)) + ")"
  {
    var u := DocumentUri(path);
    var href := EncodeUri(OpenDocumentCommand + JsonStringify(u));
    CommandPrefixEncoded(u);
    PageLinkParts(path, href);
    Regroup6("[", path, "](", OpenDocumentCommand, EncodeArgument(u), ")");
  }

  lemma Regroup6(a: string, b: string, c: string, d: string, e: string, f: string)
    ensures a + b + c + (d + e) + f == a + b + c + d + e + f
  {
  }

  /** A path without `#` is embedded as it is. */
  lemma DocumentUriWithoutHash(path: string)
    requires '#' !in path
    ensures DocumentUri(path) == DocumentPage + path
  {
    ReplaceAbsentChar(path, '#', "%23");
  }

  /** Only the first `#` is escaped: whatever follows it, further `#` included, is kept. */
  lemma DocumentUriFirstHash(before: string, after: string)
    requires '#' !in before
    ensures DocumentUri(before + "#" + after) == DocumentPage + before + "%23" + after
  {
    ReplaceFirstChar(before, '#', after, "%23");
  }

  /** The argument of the link holds no double quote, no space and no line break, whatever the path. */
  lemma PageLinkArgumentSafe(path: string, c: char)
    requires c in EncodeArgument(DocumentUri(path))
    ensures c != '"' && c != ' ' && c != '\n' && c != '\r'
  {
    EncodedAlphabet(DocumentUri(path), c);
  }

  /** The folder the workspace list offers when the lookup throws no error. */
  datatype FolderChoice = Folder(fsPath: string) | NoFolder | TypeError

  /**
   * `getDocumentWorkspaceFolder`: the folder containing the document if
   * there is one, else the first workspace folder, else null; reading the
   * length of an undefined folder list throws.
   */
  function DocumentWorkspaceFolder(containing: Option<string>, folders: Option<seq<string>>): (r: FolderChoice)
    ensures containing.Some? ==> r == Folder(containing.value)
    ensures containing.None? && folders.Some? && |folders.value| > 0 ==> r == Folder(folders.value[0])
    ensures containing.None? && folders.Some? && |folders.value| == 0 ==> r == NoFolder
    ensures containing.None? && folders.None? ==> r == TypeError
  {
    match containing
    case Some(p) => Folder(p)
    case None =>
      match folders
      case None => TypeError
      case Some(fs) => if |fs| > 0 then Folder(fs[0]) else NoFolder
  }
}
