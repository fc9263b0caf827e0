/**
 * The suggestion records the Solargraph backend answers with, as the
 * providers read them. Every field except the documentation is a string
 * or a list that is present: the providers call string and array methods
 * on `path`, `insert` and `arguments`, which throw on a missing field, and
 * the records here do not represent that case. The documentation keeps the
 * difference between absent (`undefined`), `null` and a string, because
 * string concatenation spells the first two out. (`label` is a keyword
 * here, so the field is `labelText`.)
 */
module Backend {
  import opened Js

  datatype Suggestion = Suggestion(
    labelText: string,
    kind: string,
    insert: string,
    arguments: seq<string>,
    returnType: string,
    path: string,
    documentation: JsText,
    params: seq<string>,
    location: string)

  /** A response to `suggest`: its status and its suggestions. */
  datatype Response = Response(status: string, suggestions: seq<Suggestion>)
}
