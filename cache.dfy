/**
 * The lookup the two text-document content providers share: a dictionary
 * from URI strings to the bodies their fetches answered with, and
 * `this.docs[uri.toString()] || 'Loading...'` on top of it.
 */
module Cache {
  import opened Js

  /** The placeholder shown while a fetch is under way. */
  const Loading: string := "Loading..."

  /** `this.docs[key]` is truthy: a stored, non-empty body. */
  predicate Stored(docs: map<string, JsText>, key: string)
  {
    key in docs && Truthy(docs[key])
  }

  /** `this.docs[key] || 'Loading...'`. */
  function Shown(docs: map<string, JsText>, key: string): (content: string)
    ensures Stored(docs, key) ==> content == docs[key].s
    ensures !Stored(docs, key) ==> content == Loading
  {
    if Stored(docs, key) then docs[key].s else Loading
  }
}
