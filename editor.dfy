/**
 * The editor objects the extension reads and builds, as plain records:
 * URIs, positions and ranges in a document, and a document's lines.
 */
module Editor {

  /**
   * A parsed URI: `text` is `uri.toString()` (the key of every cache),
   * `raw` is `uri.toString(true)` (the same without percent-encoding),
   * `path` and `query` are its components.
   */
  datatype Uri = Uri(text: string, raw: string, path: string, query: string)

  /** A zero-based line and character. */
  datatype Position = Position(line: nat, character: nat)

  /** A range from `start` to `end`. */
  datatype Range = Range(start: Position, end: Position)

  /** An open document, as its lines without terminators. */
  datatype Document = Document(lines: seq<string>)

  /** A position that lies inside the document: on one of its lines, at most at the line's end. */
  predicate InDocument(d: Document, p: Position)
  {
    p.line < |d.lines| && p.character <= |d.lines[p.line]|
  }

  /** A range of the kind the editor's word lookup returns: on one line of the document, in order. */
  predicate WordRange(d: Document, r: Range)
  {
    InDocument(d, r.start) && InDocument(d, r.end) &&
    r.start.line == r.end.line && r.start.character <= r.end.character
  }

  /** `document.getText(range)` for a range on one line. */
  function TextOn(d: Document, r: Range): (t: string)
    requires WordRange(d, r)
    ensures |t| == r.end.character - r.start.character
  {
    d.lines[r.start.line][r.start.character..r.end.character]
  }

  /** A `MarkdownString` with its `isTrusted` flag, which lets command links run. */
  datatype MarkdownString = MarkdownString(value: string, isTrusted: bool)
}
