/**
 * The hover provider: it asks the backend for the suggestions under the
 * cursor and builds one trusted Markdown text from them, linking each
 * documentation path once and adding each suggestion's documentation.
 */
module Hover {
  import opened Js
  import opened Encoding
  import opened Backend
  import opened Helper
  import opened Format

  /** A hover is a trusted Markdown text; an empty answer rejects the promise. */
  datatype Outcome = Resolved(markdown: string, isTrusted: bool) | Rejected

  /** Suggestion `k` is the first one with its path: no earlier suggestion has the same path. */
  predicate FirstWithPath(ss: seq<Suggestion>, k: nat)
    requires k < |ss|
  {
    forall j :: 0 <= j < k ==> ss[j].path != ss[k].path
  }

  /** The text one suggestion contributes: the page link if its path is new, a blank line, then its documentation. */
  function Section(s: Suggestion, first: bool, h2p: string -> string): (t: string)
    ensures |t| >= 2 && t[|t| - 2..] == "\n\n"
  {
    var link := if first then "\n\n" + DocumentPageLink(s.path) else "";
    var doc := if Truthy(s.documentation) then PlainText(s.documentation, h2p) + "\n\n" else "";
    link + "\n\n" + doc
  }

  /** The sections of the first `n` suggestions, in order. */
  function Sections(ss: seq<Suggestion>, n: nat, h2p: string -> string): string
    requires n <= |ss|
  {
    if n == 0 then "" else Sections(ss, n - 1, h2p) + Section(ss[n - 1], FirstWithPath(ss, n - 1), h2p)
  }

  /** The paths of the first `n` suggestions. */
  function PathsBefore(ss: seq<Suggestion>, n: nat): set<string>
    requires n <= |ss|
  {
    set j | 0 <= j < n :: ss[j].path
  }

  /** The list of used paths holds exactly the paths of the first `n` suggestions. */
  predicate Tracks(used: seq<string>, ss: seq<Suggestion>, n: nat)
    requires n <= |ss|
  {
    (set p | p in used) == PathsBefore(ss, n)
  }

  /** The source's link, built as `"\n\n[" + path + '](' + href + ')'`, is the page link after a blank line. */
  lemma HoverLink(path: string, uri: string, href: string, link: string)
    requires uri == DocumentPage + ReplaceFirst(path, "#", "%23")
    requires href == EncodeUri(OpenDocumentCommand + JsonStringify(uri))
    requires link == "\n\n[" + path + "](" + href + ")"
    ensures link == "\n\n" + DocumentPageLink(path)
  {
    PageLinkParts(path, href);
    LinkRegroup(path, href);
  }

  lemma LinkRegroup(path: string, href: string)
    ensures "\n\n[" + path + "](" + href + ")" == "\n\n" + ("[" + path + "](" + href + ")")
  {
  }

  /** One loop step: the section of suggestion `i` follows the text so far, and its path joins the used paths. */
  lemma SectionStep(ss: seq<Suggestion>, i: nat, c: string, c': string, used: seq<string>, used': seq<string>,
                    link: string, doc: string, h2p: string -> string)
    requires i < |ss| && c == Sections(ss, i, h2p) && Tracks(used, ss, i)
    requires ss[i].path !in used ==> used' == used + [ss[i].path] && link == "\n\n" + DocumentPageLink(ss[i].path)
    requires ss[i].path in used ==> used' == used && link == ""
    requires doc == (if Truthy(ss[i].documentation) then PlainText(ss[i].documentation, h2p) + "\n\n" else "")
    requires c' == c + link + "\n\n" + doc
    ensures c' == Sections(ss, i + 1, h2p)
    ensures Tracks(used', ss, i + 1)
  {
    UsedMeansSeen(ss, i);
    PathsGrow(ss, i);
    var t := Section(ss[i], FirstWithPath(ss, i), h2p);
    assert Sections(ss, i + 1, h2p) == c + t;
    assert t == link + "\n\n" + doc;
    Associate3(c, link, "\n\n", doc);
  }

  lemma Associate3(a: string, b: string, c: string, d: string)
    ensures a + b + c + d == a + (b + c + d)
  {
  }

  /** A path was used before suggestion `i` exactly when suggestion `i` is not the first with it. */
  lemma UsedMeansSeen(ss: seq<Suggestion>, i: nat)
    requires i < |ss|
    ensures ss[i].path in PathsBefore(ss, i) <==> !FirstWithPath(ss, i)
  {
    if !FirstWithPath(ss, i) {
      var j :| 0 <= j < i && ss[j].path == ss[i].path;
      assert ss[j].path in PathsBefore(ss, i);
    }
  }

  lemma PathsGrow(ss: seq<Suggestion>, i: nat)
    requires i < |ss|
    ensures PathsBefore(ss, i + 1) == PathsBefore(ss, i) + {ss[i].path}
  {
    assert ss[i].path in PathsBefore(ss, i + 1);
  }

  /** The link added for a path not yet used: the page link after a blank line. */
  method NewPathLink(path: string) returns (link: string)
    ensures link == "\n\n" + DocumentPageLink(path)
  {
    var uri := DocumentPage + ReplaceFirst(path, "#", "%23");
    var href := EncodeUri(OpenDocumentCommand + JsonStringify(uri));
    link := "\n\n[" + path + "](" + href + ")";
    HoverLink(path, uri, href, link);
  }

  /** The loop body: the section of suggestion `i`, linking its path if no earlier suggestion had it. */
  method AddSuggestion(ss: seq<Suggestion>, i: nat, c: string, usedPaths: seq<string>, h2p: string -> string)
    returns (c': string, usedPaths': seq<string>)
    requires i < |ss| && c == Sections(ss, i, h2p) && Tracks(usedPaths, ss, i)
    ensures c' == Sections(ss, i + 1, h2p) && Tracks(usedPaths', ss, i + 1)
  {
    var s := ss[i];
    var link := "";
    usedPaths' := usedPaths;
    if s.path !in usedPaths {
      usedPaths' := usedPaths + [s.path];
      link := NewPathLink(s.path);
    }
    var doc := "";
    if Truthy(s.documentation) {
      var text := HtmlToPlainText(s.documentation, h2p);
      doc := text + "\n\n";
    }
    c' := c + link + "\n\n" + doc;
    SectionStep(ss, i, c, c', usedPaths, usedPaths', link, doc, h2p);
  }

  /** `provideHover` once the backend has answered; `h2p` is the HTML-to-text converter. */
  method ProvideHover(data: Response, h2p: string -> string) returns (outcome: Outcome)
    ensures |data.suggestions| == 0 ==> outcome == Rejected
    ensures |data.suggestions| > 0 ==> outcome == Resolved(Sections(data.suggestions, |data.suggestions|, h2p), true)
  {
    var ss := data.suggestions;
    if |ss| > 0 {
      var c := "";
      var usedPaths: seq<string> := [];
      var i := 0;
      while i < |ss|
        invariant i <= |ss|
        invariant c == Sections(ss, i, h2p)
        invariant Tracks(usedPaths, ss, i)
      {
        c, usedPaths := AddSuggestion(ss, i, c, usedPaths, h2p);
        i := i + 1;
      }
      assert i == |ss|;
      outcome := Resolved(c, true);
    } else {
      outcome := Rejected;
    }
  }

  /** Every path that occurs is linked by exactly one suggestion: the first one that has it. */
  lemma {:induction false} FirstWithPathExists(ss: seq<Suggestion>, k: nat)
    requires k < |ss|
    ensures exists j :: 0 <= j <= k && ss[j].path == ss[k].path && FirstWithPath(ss, j)
    decreases k
  {
    if !FirstWithPath(ss, k) {
      var j :| 0 <= j < k && ss[j].path == ss[k].path;
      FirstWithPathExists(ss, j);
    }
  }

  /** Every suggestion contributes at least its blank line, so the text ends with one. */
  lemma {:induction false} SectionsEnd(ss: seq<Suggestion>, n: nat, h2p: string -> string)
    requires 0 < n <= |ss|
    ensures var c := Sections(ss, n, h2p); |c| >= 2 * n && c[|c| - 2..] == "\n\n"
    decreases n
  {
    var t := Section(ss[n - 1], FirstWithPath(ss, n - 1), h2p);
    if n > 1 {
      SectionsEnd(ss, n - 1, h2p);
    }
    SuffixKept(Sections(ss, n - 1, h2p), t);
  }

  lemma SuffixKept(a: string, t: string)
    requires |t| >= 2
    ensures |a + t| == |a| + |t| && (a + t)[|a + t| - 2..] == t[|t| - 2..]
  {
  }

  /** Two suggestions with the same path give one link: the second section starts with the blank line alone. */
  lemma RepeatedPathNoLink(ss: seq<Suggestion>, j: nat, k: nat, h2p: string -> string)
    requires j < k < |ss| && ss[j].path == ss[k].path
    ensures Section(ss[k], FirstWithPath(ss, k), h2p)[..2] == "\n\n"
    ensures Section(ss[k], FirstWithPath(ss, k), h2p)
      == "\n\n" + (if Truthy(ss[k].documentation) then PlainText(ss[k].documentation, h2p) + "\n\n" else "")
  {
    assert !FirstWithPath(ss, k);
  }
}
