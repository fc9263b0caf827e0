# vscode-solargraph, modelled in Dafny

This project models the client side of the Solargraph Ruby extension for VS Code, the part that talks to the Solargraph backend:

- **Documentation links.** Three loops rewrite `solargraph:` documentation links into `command:` links:
  - the hover middleware of `extension.ts`, which the source defines but never installs;
  - `convertDocumentation` of the language client, which then escapes the first `<` and the first `>`;
  - the quoted-attribute variant of the webview.
- **Document page links.** `getDocumentPageLink` builds a page link, and the hover provider builds the same link inline. `encodeURI` and `JSON.stringify` are modelled concretely, as ECMA-262 defines them for strings.
- **Query strings.** `getQueryVariable` keeps the first match. The webview's `parseQuery` keeps the last.
- **Location parsing.** The definition provider parses `path:line:column` with its lazy regular expression.
- **Response shaping.** Backend suggestions become editor records:
  - completion items, with the kind table, sigil stripping, range adjustment, detail and documentation;
  - the hover text, with each path linked once;
  - signature help;
  - definition locations.
- **The `SolargraphServer` state machine.** Start, stderr scanning for `port=` and `pid=`, the one-shot ready callback, exit, stop, restart and `prepare`.
- **Caches and the webview registry.**
  - The document cache and the YARD cache are keyed by URI string, with `Loading...` placeholders.
  - The webview registry has one panel per URI.
- **Small pieces.**
  - The `bundle exec` command lines.
  - The modular spinner.
  - The `<pre>` preprocessing of `htmlToPlainText`.

Each source file has its own module: `Extension`, `LanguageClient`, `Completion`, `Server`, `Hover`, `Webview`, `Definition`, `Commands`, `DocumentProvider`, `YardContent`, `SignatureHelp`, `Helper`, `Spinner` and `Format`. Shared modules hold what several files use:

- `Js`: JavaScript string built-ins, truthiness, `parseInt`, and `String.replace` with and without `$` patterns.
- `Encoding`: `encodeURI` and `JSON.stringify`.
- `Splice`: sequential replace-first against a simultaneous splice.
- `LinkRewriter`: the three rewrite loops.
- `Query`: `split('=')` of one query part.
- `Cache`: the `docs[key] || 'Loading...'` read.
- `Editor` and `Backend`: the VS Code and backend records.

Callbacks that the editor or a child process invoke become methods of their own (`OnStderr`, `OnExit`, `OnResponse`, `OnDispose`). Effects such as a spawn, a kill, an HTTP request or a change event are returned as values.

## Model

| member | source | states |
|---|---|---|
| Js.ReplaceFirstSpec | src/helper.ts:15 | `replace` with a string pattern leaves a text without the pattern alone, and otherwise replaces exactly its first occurrence |
| Js.ReplaceFirstChar | src/helper.ts:15 | replacing the first `c` changes the `c` right after a `c`-free prefix, and nothing after it |
| Js.ReplaceAbsentChar | src/helper.ts:15 | a text without `c` is left unchanged |
| Js.ReplacePlain | src/extension.ts:34 | JavaScript's `replace`, which reads `$` patterns, agrees with literal replace-first when the replacement holds no `$` |
| Js.DollarPairHalved | src/extension.ts:34 | a `$$` in the replacement is inserted as a single `$` |
| Js.Split | src/SolargraphWebviewProvider.ts:14 | `split` on one character gives at least one part, no part holds the separator, and joining the parts gives the input back |
| Js.SplitJoin | src/SolargraphWebviewProvider.ts:16 | splitting a join of separator-free parts gives the parts back (the round trip in the other direction) |
| Js.ParseInt | src/SolargraphServer.ts:43 | `parseInt` of a digit string is NaN exactly for the empty string |
| Js.DigitRun | src/SolargraphServer.ts:37 | `[0-9]*` captures the longest digit run at its position: all digits, and followed by the end or a non-digit |
| Splice.SequentialIsSplice | src/extension.ts:32-35 | replacing the first occurrence of each match in turn gives the simultaneous splice of all matches, whenever each match is still the first occurrence when its turn comes |
| Splice.SequentialPatternPlain | src/extension.ts:34 | the loop that reads `$` patterns agrees with the literal loop when no replacement holds a `$` |
| Encoding.Utf8 | src/helper.ts:16 | a character encodes to 1 to 4 bytes, and to 1 byte exactly when it is below 0x80 |
| Encoding.Percent | src/helper.ts:16 | each byte becomes `%XY`: three characters, each `%` or an upper-case hexadecimal digit |
| Encoding.EncodeUriChar | src/helper.ts:16 | `encodeURI` copies an unescaped character and writes any other character as `%XY` escapes only |
| Encoding.EncodeUriAlphabet | src/helper.ts:16 | every character of the encoded text is `%`, a hexadecimal digit, or an unescaped character of the input |
| Encoding.EncodeUriKeeps | src/helper.ts:16 | every unescaped character of the input reaches the output |
| Encoding.EncodeUriIdentity | src/helper.ts:16 | a text made only of unescaped characters is its own encoding |
| Encoding.EncodeUriAppend | src/helper.ts:16 | `encodeURI` distributes over concatenation |
| Encoding.UnescapedAppend | src/helper.ts:16 | two texts of unescaped characters concatenate to one |
| Encoding.JsonChar | src/helper.ts:16 | `JSON.stringify` copies ordinary characters and writes quote, backslash and control characters as escapes |
| Encoding.JsonStringify | src/helper.ts:16 | a stringified string starts and ends with a double quote |
| Encoding.JsonBodyAppend | src/helper.ts:16 | the escaped body of a concatenation is the concatenation of the bodies |
| Encoding.JsonBodyKeeps | src/helper.ts:16 | a character that neither encoder writes itself is in the body exactly when it is in the input |
| Encoding.EncodedAlphabet | src/extension.ts:33 | the encoded command argument holds only `%`, hexadecimal digits and unescaped characters |
| Encoding.EncodedKeeps | src/extension.ts:33 | a transparent character of the input survives both encoders |
| Encoding.EncodedOnlyKeeps | src/extension.ts:33 | a transparent character of the output was in the input |
| Encoding.EncodeArgumentSplit | src/extension.ts:33 | a tail that both encoders copy stays whole, in place, inside the encoded argument |
| Encoding.QuotedKeeps | src/extension.ts:33 | the encoded opening quote and body hold a transparent character only if the input did |
| LinkRewriter.Marker | src/extension.ts:29 | every link starts with its opening delimiter and `solargraph:`, 12 characters in all |
| LinkRewriter.StopFromIsFirst | src/extension.ts:29 | the lazy `(.*?)` stops at the first closing delimiter or line terminator |
| LinkRewriter.LinkEndIsLink | src/extension.ts:29 | the match at an index ends at `j` exactly when the text there is the marker, a stretch without stopping characters and a closing delimiter |
| LinkRewriter.NextLinkFinds | src/extension.ts:32 | `regexp.exec` reports a real link |
| LinkRewriter.NextLinkIsLeftmost | src/extension.ts:32 | no link starts between `lastIndex` and the link `exec` reports |
| LinkRewriter.Links | src/extension.ts:32 | the links the global expression finds are ordered and do not overlap |
| LinkRewriter.LinksCons | src/extension.ts:32 | the links are the first one `exec` finds, then the links found after it |
| LinkRewriter.Replacements | src/extension.ts:33 | one command link per matched link, built from that link's text |
| LinkRewriter.RewriteLinksAsWritten | src/extension.ts:29-35 | the loop as written, `replace` reading `$` patterns, computes the sequential rewrite |
| LinkRewriter.RewriteLinks | src/extension.ts:29-35 | the loop computes the intended rewrite: every link replaced where it stands, all other text kept |
| LinkRewriter.RewriteStep | src/extension.ts:32-34 | one turn of the loop as written leaves the remaining work unchanged |
| LinkRewriter.SpliceIsRewritten | src/extension.ts:32-35 | replacing each matched link where it stands is the intended rewrite |
| LinkRewriter.NoLinkRewritten | src/extension.ts:31-35 | text in which the expression finds no link is passed through unchanged |
| LinkRewriter.NoMarkerUnchanged | src/extension.ts:31-35 | a text without `(solargraph:` is passed through unchanged |
| LinkRewriter.GapRewritten | src/extension.ts:32-34 | text in which no link starts is copied unchanged |
| LinkRewriter.RewrittenFirstLink | src/extension.ts:32-34 | the rewrite is the text before the first link, its command link, then the rewrite of the rest |
| LinkRewriter.CommandLinkDollar | src/extension.ts:33 | a command link holds a `$` only when the link text does |
| LinkRewriter.AsWrittenAgrees | src/extension.ts:32-34 | the loop as written equals the intended rewrite when no link text holds `$` and every match is still first when its turn comes |
| LinkRewriter.FoundInPlace | src/extension.ts:32-34 | when the text rewritten so far holds nothing shaped like a link and the link holds no second opening delimiter, `replace` finds the link's text first at the link's own place |
| LinkRewriter.CleanStep | src/extension.ts:34 | appending the gap and the command link keeps the rewritten text free of anything shaped like a link, so a later link text cannot be found inside it |
| LinkRewriter.LinksInPlace | src/extension.ts:32-34 | from any point on, every link is still first found at its own place when its turn comes, provided each link is apart: no opening delimiter inside its text and, for the quoted form, no `solargraph:` right after its closing quote |
| LinkRewriter.AsWrittenIsRewritten | src/extension.ts:29-35 | the loop as written equals the intended rewrite whenever no link text holds `$` and every link is apart; repeated identical links included |
| LinkRewriter.SingleLinkAsWritten | src/extension.ts:34 | a text that is one link becomes, as written, its command link with `$` patterns read |
| LinkRewriter.SingleLinkRewritten | src/extension.ts:33 | a text that is one link is meant to become its command link |
| LinkRewriter.DollarCommandLink | src/extension.ts:33-34 | for the link text `$$`, reading `$` patterns shortens the command link by one character |
| LinkRewriter.DollarLinkCounterexample | src/extension.ts:34 | `(solargraph:$$)` is meant to become the command link of `$$`, but the loop as written returns a text one character shorter |
| Format.CloseFromIsFirst | src/format.ts:6 | the lazy `[\s\S]*?` stops at the first `</pre>`, whatever its letter case |
| Format.BlockEndIsBlock | src/format.ts:6 | the match at an index ends at `j` exactly when the text there is an opening tag, a stretch without a closing tag and a closing tag |
| Format.NextBlockFinds | src/format.ts:6 | the reported block is a real block |
| Format.NextBlockIsLeftmost | src/format.ts:6 | no block starts before the reported one |
| Format.Blocks | src/format.ts:6 | the blocks `match` returns are ordered and do not overlap |
| Format.BlocksCons | src/format.ts:6 | the blocks are the first block found, then the blocks after it |
| Format.BreakLinesJoins | src/format.ts:9 | `replace(/\n/g, "<br/>\n")` joins the lines of a block with `<br/>` and a line break |
| Format.BreakLinesDollar | src/format.ts:9 | the marked block holds a `$` exactly when the block does |
| Format.BreakLinesKeeps | src/format.ts:9 | a block without line breaks is left as it is |
| Format.BrokenBlocks | src/format.ts:9 | one marked block per matched block, in order |
| Format.MarkedFirstBlock | src/format.ts:8-10 | the preprocessing is the text before the first block, the marked block, then the preprocessing of the rest |
| Format.GapMarked | src/format.ts:9 | text outside blocks is not changed |
| Format.SpliceIsMarked | src/format.ts:8-10 | replacing each block where it stands is the intended preprocessing |
| Format.HtmlToPlainTextAsWritten | src/format.ts:3-15 | empty or absent HTML gives `''`; otherwise the result is the converter applied to the sequential replace loop, `$` patterns read |
| Format.HtmlToPlainText | src/format.ts:3-15 | empty or absent HTML gives `''`; otherwise the result is the converter applied to the HTML with line breaks marked inside every block |
| Format.NoBlockUnchanged | src/format.ts:6-12 | HTML without a `<pre>` block reaches the converter unchanged |
| Format.AsWrittenAgrees | src/format.ts:8-10 | the loop as written equals the intended preprocessing when no block holds `$` and every block is still first when its turn comes |
| Format.PreFoundInPlace | src/format.ts:8-10 | when the text marked so far holds no block with a line break, `replace` finds the next such block first at its own place |
| Format.CleanMarkedStep | src/format.ts:9 | appending the gap and the marked block keeps the marked text free of any block holding a line break |
| Format.BlocksInPlace | src/format.ts:8-10 | from any point on, every block that changes is first found at its own place when its turn comes, provided no block holds a `<` between its tags |
| Format.AsWrittenIsMarked | src/format.ts:8-10 | the loop as written equals the intended preprocessing whenever no block holds `$` or a `<` between its tags; repeated identical blocks included |
| Format.PlainTextAgrees | src/format.ts:3-15 | `htmlToPlainText` as written and as intended give the same text under the conditions of `AsWrittenIsMarked` |
| Format.SingleBlockAsWritten | src/format.ts:9 | a text that is one block without line breaks becomes, as written, itself with `$` patterns read |
| Format.SingleBlockMarked | src/format.ts:9 | a text that is one block is meant to become that block with its line breaks marked |
| Format.DollarBlockCounterexample | src/format.ts:9 | `<pre>$$</pre>` is meant to be kept, but the loop as written turns it into `<pre>$</pre>` |
| Commands.Options | src/commands.ts:12-13 | `shell` is always set, and `cwd` is set exactly when the root path is truthy, to that path |
| Commands.SpawnWords | src/commands.ts:14 | program and arguments together are the command words followed by the caller's arguments |
| Commands.SolargraphCommand | src/commands.ts:4-15 | `bundle exec solargraph args` with bundler, else the command path with `args`; options as above |
| Commands.YardCommand | src/commands.ts:17-26 | `bundle exec yard args` or `yard args` |
| Commands.GemCommand | src/commands.ts:28-37 | `bundle exec gem args` or `gem args` |
| Commands.ToolCommand | src/commands.ts:17-26 | the shape the YARD and gem commands share: optional `bundle exec`, then the tool, then `args` |
| Commands.WordsSplit | src/commands.ts:14 | `cmd.shift()` is the program, and the remaining words come before `args` |
| Commands.ArgumentsLast | src/commands.ts:14 | the caller's arguments always come last, in their own order |
| Completion.KindOf | src/RubyCompletionItemProvider.ts:33-43 | a kind is found only under its own name |
| Completion.KindOfName | src/RubyCompletionItemProvider.ts:33-43 | each of the nine kinds is found under its own name |
| Completion.UnknownKind | src/RubyCompletionItemProvider.ts:65 | a name with no kind is none of the nine names |
| Completion.SigilLength | src/RubyCompletionItemProvider.ts:67-71 | at most two leading `@` are stripped, none when the insert text does not start with `@`, and one only when no second `@` follows |
| Completion.Unsigiled | src/RubyCompletionItemProvider.ts:72-75 | the stripped name is the insert text after its sigil |
| Completion.SigilExamples | src/RubyCompletionItemProvider.ts:67-75 | `@@foo` and `@foo` both become `foo` |
| Completion.AtMostTwoStripped | src/RubyCompletionItemProvider.ts:67-72 | `@@@x` becomes `@x` |
| Completion.AdjustedRange | src/RubyCompletionItemProvider.ts:48-63 | the start moves right by one exactly when the range starts past column 0, its text starts with `:` and the character before is `:`; otherwise the range is unchanged; the end never moves |
| Completion.Detail | src/RubyCompletionItemProvider.ts:87-91 | the argument list comes first for a method with arguments, then `=> T` or nothing |
| Completion.DetailEndsWithReturnType | src/RubyCompletionItemProvider.ts:87-91 | the detail ends with `=> T` when there is a return type, and is empty for anything else without one |
| Completion.ParamLinesJoin | src/RubyCompletionItemProvider.ts:99-101 | the parameter lines are the parameters joined by `<br/>- `, after a dash and before a break |
| Completion.AppendParams | src/RubyCompletionItemProvider.ts:97-103 | the loop appends the parameter section to the documentation |
| Completion.ItemDocumentationAsWritten | src/RubyCompletionItemProvider.ts:92-107 | the path heading, then `htmlToPlainText` as written (replace loop reading `$`) of `documentation + params`, an absent documentation spelled `undefined`/`null` |
| Completion.DocumentationAgrees | src/RubyCompletionItemProvider.ts:92-107 | the documentation as written and as intended agree when the documentation is a string or there are no parameters, and no block holds `$` or a nested `<` |
| Completion.ItemDocumentation | src/RubyCompletionItemProvider.ts:92-107 | the path heading, then the converted documentation and parameter section when there is any |
| Completion.OnlyPathHeading | src/RubyCompletionItemProvider.ts:92-106 | with no documentation and no parameters, only the path heading remains |
| Completion.MissingDocumentationCounterexample | src/RubyCompletionItemProvider.ts:96-98 | with parameters and an absent documentation, the HTML as written starts with `undefined`/`null`, while the intended HTML is the parameter section alone |
| Completion.DocHtmlAgrees | src/RubyCompletionItemProvider.ts:96-104 | the two readings agree when the documentation is a string or there are no parameters |
| Completion.BuildItem | src/RubyCompletionItemProvider.ts:65-107 | one item with label, kind, insert, filter and sort text, range, detail and documentation as the suggestion dictates |
| Completion.ItemsAppend | src/RubyCompletionItemProvider.ts:108 | pushing the next item keeps the items in step with the suggestions |
| Completion.GetCompletionItems | src/RubyCompletionItemProvider.ts:32-112 | no items unless the status is `ok`; otherwise one item per suggestion, in order, all with the adjusted range |
| Completion.ProvideCompletionItems | src/RubyCompletionItemProvider.ts:22-27 | a status other than `ok` rejects with `[]`; `ok` resolves with the items |
| SignatureHelp.ProvideSignatureHelp | src/RubySignatureHelpProvider.ts:7-15 | resolves exactly when the character `substr(offset - 1, 1)` reads is `(`, with the one signature `*args` active |
| SignatureHelp.OnlyCharBeforeMatters | src/RubySignatureHelpProvider.ts:7 | texts that agree on that one character get the same answer |
| SignatureHelp.OffsetZeroReadsLast | src/RubySignatureHelpProvider.ts:7 | at offset 0 the document's last character decides |
| Spinner.Spinner.constructor | src/Spinner.ts:11 | a new spinner starts at frame 0 |
| Spinner.Spinner.Spin | src/Spinner.ts:13-15 | the position becomes (old + 1) mod 10 and stays below 10, and that frame is returned; it is the frame `FrameAfter(n)` for the n-th spin since construction |
| Spinner.SpinStep | src/Spinner.ts:13-15 | one more spin from the position after n spins lands where n + 1 spins land, so the n-th spin of a new spinner returns `FrameAfter(n)` |
| Spinner.StepMod | src/Spinner.ts:14 | reducing the position modulo 10 does not change where later steps land |
| Spinner.FirstSpin | src/Spinner.ts:9-14 | the first spin shows `⠙` (frames[1]), not frames[0] |
| Spinner.Periodic | src/Spinner.ts:14 | the frames repeat with period 10 |
| Spinner.ExactPeriod | src/Spinner.ts:9-14 | there is no shorter period |
| Spinner.DistinctFrames | src/Spinner.ts:9 | no frame appears twice |
| Definition.MatchTail | src/RubyDefinitionProvider.ts:22 | the tail after a colon matches exactly when it is digits, a colon and digits, and the groups are those parts |
| Definition.MatchFrom | src/RubyDefinitionProvider.ts:22 | the lazy first group ends at the leftmost colon that allows a match, never crosses a line terminator, and `s` is file, colon, line, colon, column |
| Definition.MatchLocation | src/RubyDefinitionProvider.ts:22 | a match gives groups that rebuild the location; no match means no split exists |
| Definition.MatchesIffSplit | src/RubyDefinitionProvider.ts:22 | the expression matches exactly when some split exists |
| Definition.SplitUnique | src/RubyDefinitionProvider.ts:22 | there is at most one split |
| Definition.OneColonInTail | src/RubyDefinitionProvider.ts:22 | after the split, only the colon inside the tail remains |
| Definition.DigitsColonUnique | src/RubyDefinitionProvider.ts:22 | two digits-colon-rest decompositions of one text are the same |
| Definition.SplitOfParts | src/RubyDefinitionProvider.ts:22 | `file:line:column` splits after the file, even when the file holds colons |
| Definition.MatchRoundTrip | src/RubyDefinitionProvider.ts:22 | `file:line:column` parses back to its three parts |
| Definition.LocationNumbers | src/RubyDefinitionProvider.ts:22-25 | such a location gives that file, with line and column NaN exactly where their digits are empty |
| Definition.Locations | src/RubyDefinitionProvider.ts:20-28 | at most one location per suggestion |
| Definition.LocationsStep | src/RubyDefinitionProvider.ts:20-28 | a suggestion with a location adds its parsed location; one without adds nothing |
| Definition.MatchFails | src/RubyDefinitionProvider.ts:22-23 | one location that does not match makes the whole list fail |
| Definition.AddLocation | src/RubyDefinitionProvider.ts:21-27 | the loop body either adds the next location or reports the failure the source throws on |
| Definition.ResolveLocations | src/RubyDefinitionProvider.ts:18-33 | no suggestions rejects; otherwise the locations in order, skipping suggestions without one, or a throw when a location does not match |
| Definition.ProvideDefinition | src/RubyDefinitionProvider.ts:17-33 | the same, on the backend's response |
| Hover.Section | src/RubyHoverProvider.ts:28-39 | every suggestion's contribution ends with a blank line |
| Hover.HoverLink | src/RubyHoverProvider.ts:30-32 | the provider's inline link is the page link of `getDocumentPageLink` after a blank line |
| Hover.SectionStep | src/RubyHoverProvider.ts:19-40 | one loop step appends the suggestion's section and keeps the used paths equal to the paths seen |
| Hover.UsedMeansSeen | src/RubyHoverProvider.ts:28 | a path was used exactly when the suggestion is not the first with it |
| Hover.NewPathLink | src/RubyHoverProvider.ts:29-33 | a new path adds its page link after a blank line |
| Hover.AddSuggestion | src/RubyHoverProvider.ts:20-39 | the loop body extends the text by one section and the used paths by the new path |
| Hover.ProvideHover | src/RubyHoverProvider.ts:15-47 | no suggestions rejects; otherwise a trusted text of one section per suggestion, in order |
| Hover.FirstWithPathExists | src/RubyHoverProvider.ts:28-29 | every path is linked by its first suggestion |
| Hover.SectionsEnd | src/RubyHoverProvider.ts:35 | every suggestion adds at least a blank line, so the text ends with one |
| Hover.RepeatedPathNoLink | src/RubyHoverProvider.ts:28-39 | a repeated path gets no second link, but its documentation still follows |
| Helper.DocumentUri | src/helper.ts:15 | the page URI starts with `solargraph:/document?` |
| Helper.PageLinkParts | src/helper.ts:17 | the link is the path as text and the encoded command as target |
| Helper.CommandPrefixEncoded | src/helper.ts:16 | the command prefix passes `encodeURI` unchanged, so the target is the prefix followed by the encoded argument |
| Helper.PrefixUnescaped | src/helper.ts:16 | every character of `command:solargraph._openDocument?` is one `encodeURI` copies |
| Helper.PageLinkShape | src/helper.ts:14-19 | the page link is `[path](command:solargraph._openDocument?` + encodeURI(JSON.stringify(page URI)) + `)` |
| Helper.DocumentUriWithoutHash | src/helper.ts:15 | a path without `#` is embedded unchanged |
| Helper.DocumentUriFirstHash | src/helper.ts:15 | only the first `#` becomes `%23`; what follows is kept, further `#` included |
| Helper.PageLinkArgumentSafe | src/helper.ts:16 | the link's argument never holds a double quote, a space or a line break |
| Helper.DocumentWorkspaceFolder | src/helper.ts:3-12 | the containing folder, else the first workspace folder, else null; no folder list at all throws |
| Server.FieldMatch | src/SolargraphServer.ts:37 | the capture of `key=([0-9]*)` is all digits |
| Server.FieldMatchFirst | src/SolargraphServer.ts:37-40 | the capture is the longest digit run after the first `key=` |
| Server.FieldMatchAbsent | src/SolargraphServer.ts:37-44 | output without `key=` captures nothing |
| Server.PidToKill | src/SolargraphServer.ts:62-64 | the pid is killed exactly when it is set and truthy |
| Server.SolargraphServer.constructor | src/SolargraphServer.ts:7-9 | child, port and pid start null |
| Server.SolargraphServer.Start | src/SolargraphServer.ts:22-55 | with a child, nothing is spawned and no state changes; otherwise one `solargraph server --port 0 --views …` spawn, a fresh child and a fresh callback flag |
| Server.SolargraphServer.OnStderr | src/SolargraphServer.ts:33-50 | port and pid are parsed only while the port is falsy; the callback fires at most once per start, and only when the server is running |
| Server.SolargraphServer.OnExit | src/SolargraphServer.ts:51-53 | exit clears the port and keeps child and pid |
| Server.SolargraphServer.Stop | src/SolargraphServer.ts:57-69 | no child: nothing changes. Otherwise the child and a truthy pid are killed, and all three fields are cleared |
| Server.SolargraphServer.Restart | src/SolargraphServer.ts:71-74 | stop, then start without a callback: a fresh child with no port and no pid |
| Server.SolargraphServer.Prepare | src/SolargraphServer.ts:76-92 | a request goes out exactly for a truthy workspace, to `http://localhost:<port>/prepare` with that workspace |
| Query.Key | src/SolargraphWebviewProvider.ts:16-17 | the key of a part holds no `=` |
| Query.Value | src/SolargraphWebviewProvider.ts:16-17 | the value of a part, when there is one, holds no `=` |
| Query.PairOf | src/SolargraphWebviewProvider.ts:16-17 | `k=v` and `k=v=w` both read back as key `k` and value `v` |
| Query.KeyOnly | src/SolargraphWebviewProvider.ts:16-17 | a part without `=` is all key, with the value `undefined` |
| Extension.HoverContents | src/extension.ts:27-39 | one trusted entry per original entry, in order, each with every link rewritten |
| Extension.PlainEntryKept | src/extension.ts:31-37 | an entry without `(solargraph:` is shown unchanged, trusted |
| Extension.GetQueryVariable | src/extension.ts:99-106 | the loop returns the value of the first pair whose key matches, or `false` |
| Extension.FirstMatchWins | src/extension.ts:101-103 | the first matching pair decides, whatever pairs with the same key follow |
| Extension.NoMatchIsFalse | src/extension.ts:105 | with no matching key the result is `false` |
| Extension.OpenDocumentLabel | src/extension.ts:111 | the label expression of the open-document command |
| Extension.LabelOfQuery | src/extension.ts:111 | a page with `query=term` is labelled `Search for term` on `/search` and `term` elsewhere |
| Extension.LabelWithoutQuery | src/extension.ts:119 | a page with no `query` key is labelled with the word `false` |
| Webview.ParseQuery | src/SolargraphWebviewProvider.ts:12-20 | the `forEach` builds the map of all parts in order, later parts overwriting earlier ones |
| Webview.ParamsKeys | src/SolargraphWebviewProvider.ts:15-18 | a key is in the result exactly when some part has it |
| Webview.LastPartWins | src/SolargraphWebviewProvider.ts:17 | a duplicated key takes the value of its last part |
| Webview.ConvertDocumentation | src/SolargraphWebviewProvider.ts:45-54 | every `"solargraph:X"` attribute becomes its quoted command link, all other text kept |
| Webview.PlainHtmlKept | src/SolargraphWebviewProvider.ts:49-53 | HTML without `"solargraph:` is unchanged |
| Webview.WebviewProvider.constructor | src/SolargraphWebviewProvider.ts:8-10 | no panels at first |
| Webview.WebviewProvider.Open | src/SolargraphWebviewProvider.ts:22-33 | at most one panel per URI string: a new one shows `Loading...` and an existing one is reused; the request is `$/solargraph` + path with the parsed query |
| Webview.WebviewProvider.OnDispose | src/SolargraphWebviewProvider.ts:28-30 | only that panel's entry is deleted |
| Webview.WebviewProvider.OnResponse | src/SolargraphWebviewProvider.ts:33-38 | an open panel shows the converted content; a response for a closed one is dropped |
| Cache.Shown | src/SolargraphDocumentProvider.ts:28 | the stored body when it is non-empty, else `Loading...` |
| DocumentProvider.FetchUrl | src/SolargraphDocumentProvider.ts:33 | a leading `solargraph:` becomes `http://localhost:`; any other URI is kept |
| DocumentProvider.FetchUrlOfPage | src/SolargraphDocumentProvider.ts:33 | a `solargraph:` page is fetched from the same path on the local server |
| DocumentProvider.Without | src/SolargraphDocumentProvider.ts:21 | deleting a key keeps every other key, and keeps the keys distinct |
| DocumentProvider.Urls | src/SolargraphDocumentProvider.ts:14-18 | one fetch URL per key, in order |
| DocumentProvider.SolargraphDocumentProvider.constructor | src/SolargraphDocumentProvider.ts:9-12 | the cache starts empty |
| DocumentProvider.SolargraphDocumentProvider.Provide | src/SolargraphDocumentProvider.ts:24-29 | a missing or empty entry starts a fetch and shows `Loading...`; a stored body is returned with no fetch |
| DocumentProvider.SolargraphDocumentProvider.OnResponse | src/SolargraphDocumentProvider.ts:36-39 | the body overwrites that entry only, and the change fires for that URI |
| DocumentProvider.SolargraphDocumentProvider.Remove | src/SolargraphDocumentProvider.ts:20-22 | only that key is deleted |
| DocumentProvider.SolargraphDocumentProvider.UpdateAll | src/SolargraphDocumentProvider.ts:14-18 | exactly one fetch per stored key |
| YardContent.YardContentProvider.constructor | src/YardContentProvider.ts:10-14 | the port is fixed, and the cache starts empty |
| YardContent.YardContentProvider.Update | src/YardContentProvider.ts:23-28 | the request goes to `http://localhost:` + port + path, with the query and the workspace as form fields |
| YardContent.YardContentProvider.Provide | src/YardContentProvider.ts:16-21 | a missing or empty entry starts that request and shows `Loading...`; a stored body is returned with no fetch |
| YardContent.YardContentProvider.OnResponse | src/YardContentProvider.ts:28-31 | the body is stored under the URI string, and the change fires for that URI |
| LanguageClient.ConvertDocumentation | src/language-client.ts:8-21 | links are rewritten first, then the rewritten text is escaped, and the result is trusted |
| LanguageClient.EscapesFirstOnly | src/language-client.ts:16-17 | only the first `<` and the first `>` are escaped |
| LanguageClient.NoAnglesKept | src/language-client.ts:16-17 | a text without angle brackets is not changed by the escaping |
| LanguageClient.HoverContents | src/language-client.ts:29-33 | one converted entry per original entry, in order |
| LanguageClient.ResolvedDoc | src/language-client.ts:44-50 | absent or empty documentation is kept; a `value` (even `''`) is converted, and so is a non-empty string |
| LanguageClient.PlainDocTrusted | src/language-client.ts:44-49 | a string without links or angle brackets keeps its text and becomes trusted Markdown |
| LanguageClient.ResolveCompletionItem | src/language-client.ts:42-51 | the item's documentation is replaced in place by its resolved form |
| LanguageClient.SelectClient | src/language-client.ts:73-114 | `'stdio'` and `'socket'` by name; any other value, unset included, selects the external server |
| LanguageClient.Connect | src/language-client.ts:75-113 | stdio spawns `solargraph stdio`; socket connects to the started port or fails when the start fails; external connects to the configured host and port |
| LanguageClient.OnReady | src/language-client.ts:119-123 | `$/solargraph/checkGemVersion` with `verbose: false` is sent exactly when the setting is truthy |

## Left out

- `html2plaintext` is library code outside this repository. It is a function parameter `h2p`, left uninterpreted.
- Strings are sequences of Unicode scalar values. JavaScript strings may also hold lone surrogates: `encodeURI` throws on those and `JSON.stringify` escapes them. Neither case is modelled.
- `JSON.stringify` is modelled for string arguments only, which is all the source passes it.
- Spawning, killing, HTTP requests, status-bar messages, console output, event emitters and panel creation are effects. They appear as returned values (`Spawn`, `killedPid`, `fetch`, `Request`, `changed`) or not at all.
- Promises are left out. Each callback is an atomic method that the environment may call in any order.
- `Server.SolargraphServer.OnStderr` models the stderr handler of the current child only. Output from a child that has since been stopped is not modelled, and neither is that child's exit after a restart. The source would still act on these events through its closures.
- `SolargraphServer.getPort` and `SolargraphWebviewProvider.setLanguageClient` are plain accessors and are not modelled.
- The activation wiring of `extension.ts` is not modelled: the language client, the socket connection, command registration and `previewHtml`. The commands are represented only by their label expression.
- `vscode.Uri.parse`, `toString` and `toString(true)` are not modelled. A URI is a record of its string, its unencoded string, its path and its query, and `updateAll` receives the parse as the function `rawOf`.
- `Definition.ProvideDefinition`: a location the expression does not match makes the source throw a TypeError inside the callback, so the promise never settles. This is modelled as the outcome `Threw`. `vscode.Uri.file` always returns a value, so the `if (uri)` guard is not modelled.
- ParseQuery (Webview.ParseQuery): a part without `=` stores `undefined`. The map holds that as `Undefined`, and how `undefined` is serialised in the request is not modelled.
- `Helper.DocumentWorkspaceFolder` takes the result of `getWorkspaceFolder` and the folder list as inputs. The editor's lookup itself is not modelled.
- Completion items are records rather than mutable objects. The provider only fills in a fresh item, so no aliasing is lost.
- The spinner's frame array is a constant, because the source never changes it.
- Where the written description of the extension and its code disagree, the model follows the code:
  - the hover text appends the documentation of every suggestion, including suggestions whose path repeats;
  - two `provideTextDocumentContent` calls before a response both start a fetch.
- The code is not followed in one respect: each defect under "## Findings" is modelled twice, as written and corrected, and the members that build on the link rewrite or on `htmlToPlainText` use the corrected definitions. Each of them agrees with the source whenever the composed corrected definition agrees with its as-written counterpart. `LinkRewriter.AsWrittenIsRewritten`, `Format.PlainTextAgrees` and `Completion.DocumentationAgrees` state when: no link text or block holds `$`, every link is apart and no block holds a `<` between its tags, and (for completion) the documentation is a string whenever there are parameters. Outside those conditions the following members differ from the source:
- HoverContents (Extension.HoverContents): each entry is `Rewritten(Markdown, …)`, the intended rewrite, not the replace loop of src/extension.ts:29-35.
- ConvertDocumentation (LanguageClient.ConvertDocumentation): the escaping is applied to the intended rewrite, not to the replace loop of src/language-client.ts:12-15.
- HoverContents (LanguageClient.HoverContents): each entry is the corrected `ConvertDocumentation`.
- ResolvedDoc (LanguageClient.ResolvedDoc): a converted documentation is the corrected `ConvertDocumentation`.
- ResolveCompletionItem (LanguageClient.ResolveCompletionItem): the new documentation is `ResolvedDoc`, so the corrected conversion.
- ConvertDocumentation (Webview.ConvertDocumentation): the result is `Rewritten(HtmlAttribute, …)`, not the replace loop of src/SolargraphWebviewProvider.ts:49-52.
- OnResponse (Webview.WebviewProvider.OnResponse): the panel shows the corrected `ConvertDocumentation` of the content.
- Section (Hover.Section): the documentation is converted by the corrected `htmlToPlainText` (`Format.PlainText`), not by the replace loop of src/format.ts:8-10.
- AddSuggestion (Hover.AddSuggestion): it appends `Hover.Section`, so the corrected conversion.
- ProvideHover (Hover.ProvideHover): the sections are `Hover.Section`, so the corrected conversion.
- BuildItem (Completion.BuildItem): the documentation is `Completion.Documentation`. An absent documentation with parameters contributes nothing there, where the source spells it `undefined` or `null`, and the conversion is the corrected `htmlToPlainText`. `Completion.ItemDocumentationAsWritten` is the as-written assembly.
- GetCompletionItems (Completion.GetCompletionItems): every item is built as `Completion.BuildItem` builds it.
- ProvideCompletionItems (Completion.ProvideCompletionItems): it resolves with `Completion.GetCompletionItems`, so the same documentation.
- Backend fields are plain strings and lists, never absent. In the source some missing fields throw a TypeError inside the promise callback, so the promise never settles. The members below assume the fields are present:
- ProvideHover (Hover.ProvideHover): `s.path.replace` at src/RubyHoverProvider.ts:30 throws when a suggestion has no path; the model reads a missing path as `""`.
- Section (Hover.Section): likewise, a suggestion without a path makes the source throw before its section is added.
- BuildItem (Completion.BuildItem): `cd['insert'].substring` at src/RubyCompletionItemProvider.ts:67 throws when the insert text is missing, and `cd['arguments'].length` at src/RubyCompletionItemProvider.ts:87 throws for a `Method` without arguments.
- ParseQuery (Webview.ParseQuery): a part whose key is `__proto__` sets the object's prototype in JavaScript (or is ignored for a string value) instead of adding a key; the model stores it as an ordinary key.
- KindOf (Completion.KindOf): `kinds[name]` also finds the names `Object.prototype` provides (`toString`, `constructor`, `__proto__` and others), which give a function or an object rather than undefined; the model gives `None` for them.
- ParseInt (Js.ParseInt): the value is the exact integer. JavaScript numbers are doubles, so a digit run longer than about 15 digits is rounded in the source; a process id or port never is that long.
- The hover middleware of src/extension.ts:20-44 is never installed in the source: `middleware: middleware` sits inside the block comment that opens at src/extension.ts:57. `Extension.HoverContents` and its lemmas model the middleware as written, as if it were installed.

## Findings

| source | as written | input that shows it | evidently intended | confidence | as-written member | corrected member |
|---|---|---|---|---|---|---|
| src/format.ts:9 | `html.replace(pres[j], …)` reads `$` patterns in the marked block | `<pre>$$</pre>` becomes `<pre>$</pre>` before conversion | the block kept with only its line breaks marked | medium, not executed | Format.HtmlToPlainTextAsWritten, Format.DollarBlockCounterexample | Format.HtmlToPlainText, Format.SpliceIsMarked |
| src/extension.ts:34 | `adjusted.replace(match[0], commandUri)` reads `$` patterns in the command link (likewise src/language-client.ts:14 and src/SolargraphWebviewProvider.ts:51) | `(solargraph:$$)` becomes a command link one character shorter, with the link text `$` | the command link of the text `$$` | medium, not executed | LinkRewriter.RewriteLinksAsWritten, LinkRewriter.DollarLinkCounterexample | LinkRewriter.RewriteLinks, LinkRewriter.SpliceIsRewritten |
| src/RubyCompletionItemProvider.ts:96-98 | `doc += "<p>Params:…"` on a suggestion whose documentation is absent | documentation `undefined` with the parameter `a`: the converter receives `undefined<p>Params:<br/>- a<br/></p>` | the parameter section alone | low, not executed | Completion.ItemDocumentationAsWritten, Completion.MissingDocumentationCounterexample | Completion.ItemDocumentation, Completion.DocHtmlAgrees |
