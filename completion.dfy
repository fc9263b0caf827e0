/**
 * The completion provider: it asks the backend for suggestions at the
 * cursor and turns each suggestion record into a completion item, with its
 * kind, its insert, filter and sort texts, its replacement range, a detail
 * line and plain-text documentation.
 */
module Completion {
  import opened Js
  import opened Editor
  import opened Backend
  import opened Format

  /** The nine kinds the provider maps backend kind names to. */
  datatype Kind = Class | Constant | Keyword | Module | Method | Variable | Snippet | Field | Property

  /** The backend's name of each kind: the keys of the `kinds` table. */
  function KindName(k: Kind): string
  {
    match k
    case Class => "Class"
    case Constant => "Constant"
    case Keyword => "Keyword"
    case Module => "Module"
    case Method => "Method"
    case Variable => "Variable"
    case Snippet => "Snippet"
    case Field => "Field"
    case Property => "Property"
  }

  /** `kinds[name]`: the kind of that name, or undefined for any other name. */
  function KindOf(name: string): (k: Option<Kind>)
    ensures k.Some? ==> KindName(k.value) == name
  {
    if name == "Class" then Some(Class)
    else if name == "Constant" then Some(Constant)
    else if name == "Keyword" then Some(Keyword)
    else if name == "Module" then Some(Module)
    else if name == "Method" then Some(Method)
    else if name == "Variable" then Some(Variable)
    else if name == "Snippet" then Some(Snippet)
    else if name == "Field" then Some(Field)
    else if name == "Property" then Some(Property)
    else None
  }

  /** Every kind is found under its own name, so a name outside the nine has no kind. */
  lemma KindOfName(k: Kind)
    ensures KindOf(KindName(k)) == Some(k)
  {
  }

  lemma UnknownKind(name: string)
    requires KindOf(name).None?
    ensures forall k: Kind :: KindName(k) != name
  {
    forall k: Kind ensures KindName(k) != name {
      KindOfName(k);
    }
  }

  /** What an item inserts: a plain string, or a snippet for the `Snippet` kind. */
  datatype InsertText = Plain(text: string) | SnippetString(text: string)

  /** The fields of a `vscode.CompletionItem` the provider sets. */
  datatype CompletionItem = CompletionItem(
    labelText: string,
    kind: Option<Kind>,
    insertText: InsertText,
    filterText: Option<string>,
    sortText: Option<string>,
    range: Option<Range>,
    detail: string,
    documentation: string)

  /** `firstChar`: how many leading `@` the provider strips, for an insert text that starts with `@`. */
  function SigilLength(insert: string): (n: nat)
    ensures n <= 2 && n <= |insert|
    ensures forall i :: 0 <= i < n ==> insert[i] == '@'
    ensures (n == 0) <==> !(|insert| > 0 && insert[0] == '@')
    ensures n == 1 ==> |insert| == 1 || insert[1] != '@'
  {
    if Substring(insert, 0, 1) == "@" then
      if Substring(insert, 1, 2) == "@" then 2 else 1
    else 0
  }

  /** `insert.substring(firstChar)`: the variable name without its sigil. */
  function Unsigiled(insert: string): (name: string)
    ensures insert == insert[..SigilLength(insert)] + name
  {
    Substring(insert, SigilLength(insert), |insert|)
  }

  /** `@@foo` and `@foo` both become `foo`. */
  lemma SigilExamples(classVar: string, instanceVar: string)
    requires classVar == "@@foo" && instanceVar == "@foo"
    ensures Unsigiled(classVar) == "foo" && Unsigiled(instanceVar) == "foo"
  {
    assert SigilLength(classVar) == 2;
    assert SigilLength(instanceVar) == 1;
  }

  /** At most two `@` are stripped: a third one stays. */
  lemma AtMostTwoStripped(rest: string)
    ensures Unsigiled("@@@" + rest) == "@" + rest
  {
    var s := "@@@" + rest;
    assert SigilLength(s) == 2;
    assert s[..2] == "@@";
    assert s == "@@" + ("@" + rest);
  }

  /** The range adjustment: a word range that starts with `:` right after another `:` is in a namespace, so its start skips the colon. */
  function AdjustedRange(d: Document, range: Option<Range>): (r: Option<Range>)
    requires range.Some? ==> WordRange(d, range.value)
    ensures r.Some? <==> range.Some?
    ensures r.Some? ==> r.value.end == range.value.end && r.value.start.line == range.value.start.line
    ensures r.Some? ==>
      var st := range.value.start;
      var line := d.lines[st.line];
      if st.character > 0 && st.character < range.value.end.character && line[st.character] == ':' && line[st.character - 1] == ':'
      then r.value.start.character == st.character + 1
      else r == range
  {
    match range
    case None => None
    case Some(rg) =>
      var repl := TextOn(d, rg);
      if rg.start.character > 0 && Substr(repl, 0, 1) == ":" then
        var before := Range(Position(rg.start.line, rg.start.character - 1), rg.start);
        if TextOn(d, before) == ":" then
          Some(Range(Position(rg.start.line, rg.start.character + 1), rg.end))
        else range
      else range
  }

  /** `=> T` for a return type T, or nothing. */
  function ReturnPart(returnType: string): string
  {
    if returnType != "" then "=> " + returnType else ""
  }

  /** The detail line: the argument list of a method that has arguments, then the return type. */
  function Detail(cd: Suggestion): (d: string)
    ensures cd.kind == "Method" && |cd.arguments| > 0 ==>
      d == "(" + Join(cd.arguments, ", ") + ") " + ReturnPart(cd.returnType)
    ensures !(cd.kind == "Method" && |cd.arguments| > 0) ==> d == ReturnPart(cd.returnType)
  {
    if cd.kind == "Method" && |cd.arguments| > 0 then
      "(" + Join(cd.arguments, ", ") + ") " + ReturnPart(cd.returnType)
    else ReturnPart(cd.returnType)
  }

  /** A detail line names the return type at its end exactly when there is one. */
  lemma DetailEndsWithReturnType(cd: Suggestion)
    ensures cd.returnType != "" ==> Detail(cd)[|Detail(cd)| - |cd.returnType| - 3..] == "=> " + cd.returnType
    ensures cd.returnType == "" && !(cd.kind == "Method" && |cd.arguments| > 0) ==> Detail(cd) == ""
  {
  }

  /** One `- p<br/>` line per parameter, in order. */
  function ParamLines(params: seq<string>): string
    decreases |params|
  {
    if |params| == 0 then "" else "- " + params[0] + "<br/>" + ParamLines(params[1..])
  }

  /** The parameter lines are the parameters joined by a break and a dash, between a dash and a break. */
  lemma {:induction false} ParamLinesJoin(params: seq<string>)
    requires |params| > 0
    ensures ParamLines(params) == "- " + Join(params, "<br/>- ") + "<br/>"
    decreases |params|
  {
    if |params| > 1 {
      ParamLinesJoin(params[1..]);
      assert Join(params, "<br/>- ") == params[0] + "<br/>- " + Join(params[1..], "<br/>- ");
    } else {
      assert ParamLines(params[1..]) == "";
    }
  }

  /** The parameter section appended to the documentation. */
  function ParamsSection(params: seq<string>): string
  {
    "<p>Params:<br/>" + ParamLines(params) + "</p>"
  }

  /** One parameter line more: the loop's step. */
  lemma ParamLinesStep(params: seq<string>, j: nat)
    requires j < |params|
    ensures ParamLines(params[j..]) == ("- " + params[j] + "<br/>") + ParamLines(params[j + 1..])
  {
    assert params[j..][1..] == params[j + 1..];
  }

  lemma AppendLine(doc: string, line: string, rest: string)
    ensures doc + (line + rest) == (doc + line) + rest
  {
  }

  /** The `for` loop over the parameters, appending to `doc`. */
  method AppendParams(base: string, params: seq<string>) returns (doc: string)
    ensures doc == base + ParamsSection(params)
  {
    doc := base + "<p>Params:<br/>";
    ghost var start := doc;
    assert params[0..] == params;
    for j := 0 to |params|
      invariant doc + ParamLines(params[j..]) == start + ParamLines(params)
    {
      var line := "- " + params[j] + "<br/>";
      ParamLinesStep(params, j);
      AppendLine(doc, line, ParamLines(params[j + 1..]));
      doc := doc + line;
    }
    assert ParamLines(params[|params|..]) == "";
    assert doc == start + ParamLines(params);
    doc := doc + "</p>";
    assert base + ParamsSection(params) == base + "<p>Params:<br/>" + ParamLines(params) + "</p>";
  }

  /** The HTML handed to the converter as written: `doc += …` spells an absent documentation `undefined`. */
  function DocHtmlAsWritten(cd: Suggestion): JsText
  {
    if |cd.params| > 0 then Text(ToStr(cd.documentation) + ParamsSection(cd.params)) else cd.documentation
  }

  /** The HTML handed to the converter with the evident intent: an absent documentation contributes nothing. */
  function DocHtml(cd: Suggestion): JsText
  {
    var base := if Truthy(cd.documentation) then cd.documentation.s else "";
    if |cd.params| > 0 then Text(base + ParamsSection(cd.params)) else cd.documentation
  }

  /** The path heading: the path and a blank line, when there is a path. */
  function PathPart(cd: Suggestion): string
  {
    if cd.path != "" then cd.path + "\n\n" else ""
  }

  /** The documentation of an item: the path heading, then the converted HTML when there is any. */
  function Documentation(cd: Suggestion, h2p: string -> string): string
  {
    PathPart(cd) + PlainText(DocHtml(cd), h2p)
  }

  /** The documentation of an item as written: `undefined` spelled out, the replace loop reading `$`. */
  function DocumentationAsWritten(cd: Suggestion, h2p: string -> string): string
  {
    PathPart(cd) + PlainTextAsWritten(DocHtmlAsWritten(cd), h2p)
  }

  /**
   * The two assemblies agree when the documentation is a string or there are
   * no parameters, and no block of the HTML holds `$` or a nested `<`.
   */
  lemma DocumentationAgrees(cd: Suggestion, h2p: string -> string)
    requires cd.documentation.Text? || |cd.params| == 0
    requires Truthy(DocHtml(cd)) ==> var html := DocHtml(cd).s;
      forall k :: 0 <= k < |Pres(html)| ==> '$' !in Pres(html)[k]
    requires Truthy(DocHtml(cd)) ==> var html := DocHtml(cd).s;
      forall k :: 0 <= k < |Blocks(html, 0)| ==> BlockApart(html, Blocks(html, 0)[k])
    ensures DocumentationAsWritten(cd, h2p) == Documentation(cd, h2p)
  {
    DocHtmlAgrees(cd);
    PlainTextAgrees(DocHtml(cd), h2p);
  }

  lemma DocumentationParts(cd: Suggestion, h2p: string -> string, heading: string, html: JsText, text: string)
    requires heading == PathPart(cd)
    ensures html == DocHtml(cd) && text == PlainText(html, h2p) ==> heading + text == Documentation(cd, h2p)
    ensures html == DocHtmlAsWritten(cd) && text == PlainTextAsWritten(html, h2p) ==>
      heading + text == DocumentationAsWritten(cd, h2p)
  {
  }

  /** The documentation assembly as written. */
  method ItemDocumentationAsWritten(cd: Suggestion, h2p: string -> string) returns (documentation: string)
    ensures documentation == DocumentationAsWritten(cd, h2p)
  {
    documentation := "";
    if cd.path != "" {
      documentation := documentation + cd.path + "\n\n";
    }
    assert documentation == PathPart(cd);
    var doc := cd.documentation;
    if |cd.params| > 0 {
      var s := AppendParams(ToStr(doc), cd.params);
      doc := Text(s);
    }
    assert doc == DocHtmlAsWritten(cd);
    var text := "";
    if Truthy(doc) {
      text := HtmlToPlainTextAsWritten(doc, h2p);
    }
    assert text == PlainTextAsWritten(doc, h2p);
    DocumentationParts(cd, h2p, documentation, doc, text);
    documentation := documentation + text;
  }

  /** The documentation assembly with an absent documentation read as empty. */
  method ItemDocumentation(cd: Suggestion, h2p: string -> string) returns (documentation: string)
    ensures documentation == Documentation(cd, h2p)
  {
    documentation := "";
    if cd.path != "" {
      documentation := documentation + cd.path + "\n\n";
    }
    assert documentation == PathPart(cd);
    var doc := cd.documentation;
    if |cd.params| > 0 {
      var base := if Truthy(doc) then doc.s else "";
      var s := AppendParams(base, cd.params);
      doc := Text(s);
    }
    assert doc == DocHtml(cd);
    var text := "";
    if Truthy(doc) {
      text := HtmlToPlainText(doc, h2p);
    }
    assert text == PlainText(doc, h2p);
    DocumentationParts(cd, h2p, documentation, doc, text);
    documentation := documentation + text;
  }

  /** A suggestion with neither documentation nor parameters gets only the path heading. */
  lemma OnlyPathHeading(cd: Suggestion, h2p: string -> string)
    requires !Truthy(cd.documentation) && |cd.params| == 0
    ensures Documentation(cd, h2p) == PathPart(cd)
  {
  }

  /**
   * A method with parameters but no documentation: as written, the HTML
   * starts with `undefined` (or `null`); with the evident intent it is the
   * parameter section alone.
   */
  lemma MissingDocumentationCounterexample(cd: Suggestion)
    requires |cd.params| > 0 && (cd.documentation.Undefined? || cd.documentation.Null?)
    ensures DocHtmlAsWritten(cd) == Text((if cd.documentation.Undefined? then "undefined" else "null") + ParamsSection(cd.params))
    ensures DocHtml(cd) == Text(ParamsSection(cd.params))
  {
  }

  /** The two assemblies agree whenever the documentation is a string or there are no parameters. */
  lemma DocHtmlAgrees(cd: Suggestion)
    requires cd.documentation.Text? || |cd.params| == 0
    ensures DocHtmlAsWritten(cd) == DocHtml(cd)
  {
  }

  /** What the provider builds for one suggestion, given the adjusted range. */
  predicate ItemFor(item: CompletionItem, cd: Suggestion, range: Option<Range>, h2p: string -> string)
  {
    item.kind == KindOf(cd.kind) && item.range == range &&
    item.detail == Detail(cd) && item.documentation == Documentation(cd, h2p) &&
    if SigilLength(cd.insert) > 0 then
      var name := Unsigiled(cd.insert);
      item.labelText == name && item.insertText == Plain(name) &&
      item.filterText == Some(name) && item.sortText == Some(name)
    else
      item.labelText == cd.labelText &&
      item.insertText == (if cd.kind == "Snippet" then SnippetString(cd.insert) else Plain(cd.insert)) &&
      item.filterText == None && item.sortText == None
  }

  /** The body of the `forEach`: one item, its fields set in the source's order. */
  method BuildItem(cd: Suggestion, range: Option<Range>, h2p: string -> string) returns (item: CompletionItem)
    ensures ItemFor(item, cd, range, h2p)
  {
    item := CompletionItem(cd.labelText, KindOf(cd.kind), Plain(""), None, None, None, "", "");
    if Substring(cd.insert, 0, 1) == "@" {
      var firstChar := 1;
      if Substring(cd.insert, 1, 2) == "@" {
        firstChar := 2;
      }
      var name := Substring(cd.insert, firstChar, |cd.insert|);
      item := item.(insertText := Plain(name), filterText := Some(name), sortText := Some(name), labelText := name);
    } else {
      if cd.kind == "Snippet" {
        item := item.(insertText := SnippetString(cd.insert));
      } else {
        item := item.(insertText := Plain(cd.insert));
      }
    }
    if range.Some? {
      item := item.(range := range);
    }
    item := item.(detail := Detail(cd));
    var documentation := ItemDocumentation(cd, h2p);
    item := item.(documentation := documentation);
  }

  /** Appending the next suggestion's item keeps the items in step with the suggestions. */
  lemma ItemsAppend(items: seq<CompletionItem>, item: CompletionItem, suggestions: seq<Suggestion>, range: Option<Range>, h2p: string -> string)
    requires |items| < |suggestions|
    requires forall k :: 0 <= k < |items| ==> ItemFor(items[k], suggestions[k], range, h2p)
    requires ItemFor(item, suggestions[|items|], range, h2p)
    ensures forall k :: 0 <= k < |items| + 1 ==> ItemFor((items + [item])[k], suggestions[k], range, h2p)
  {
    forall k | 0 <= k < |items| + 1
      ensures ItemFor((items + [item])[k], suggestions[k], range, h2p)
    {
      if k < |items| {
        assert (items + [item])[k] == items[k];
      }
    }
  }

  /** `getCompletionItems`: no items unless the status is `ok`, else one item per suggestion, in order. */
  method GetCompletionItems(data: Response, d: Document, wordRange: Option<Range>, h2p: string -> string)
    returns (items: seq<CompletionItem>)
    requires wordRange.Some? ==> WordRange(d, wordRange.value)
    ensures data.status != "ok" ==> items == []
    ensures data.status == "ok" ==> |items| == |data.suggestions|
    ensures data.status == "ok" ==> forall k :: 0 <= k < |items| ==>
      ItemFor(items[k], data.suggestions[k], AdjustedRange(d, wordRange), h2p)
  {
    items := [];
    if data.status == "ok" {
      var range := AdjustedRange(d, wordRange);
      for i := 0 to |data.suggestions|
        invariant |items| == i
        invariant forall k :: 0 <= k < i ==> ItemFor(items[k], data.suggestions[k], range, h2p)
      {
        var item := BuildItem(data.suggestions[i], range, h2p);
        ItemsAppend(items, item, data.suggestions, range, h2p);
        items := items + [item];
      }
    }
  }

  /** How the completion promise settles. */
  datatype Outcome = Resolved(items: seq<CompletionItem>) | Rejected(reason: seq<CompletionItem>)

  /** `provideCompletionItems` once the backend has answered. */
  method ProvideCompletionItems(response: Response, d: Document, wordRange: Option<Range>, h2p: string -> string)
    returns (outcome: Outcome)
    requires wordRange.Some? ==> WordRange(d, wordRange.value)
    ensures response.status != "ok" ==> outcome == Rejected([])
    ensures response.status == "ok" ==> outcome.Resolved? && |outcome.items| == |response.suggestions|
    ensures response.status == "ok" ==> forall k :: 0 <= k < |outcome.items| ==>
      ItemFor(outcome.items[k], response.suggestions[k], AdjustedRange(d, wordRange), h2p)
  {
    if response.status == "ok" {
      var items := GetCompletionItems(response, d, wordRange, h2p);
      outcome := Resolved(items);
    } else {
      outcome := Rejected([]);
    }
  }
}
