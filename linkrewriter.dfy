/**
 * The documentation link rewriting shared by the hover middleware
 * (`(solargraph:X)` in Markdown) and the documentation web view
 * (`"solargraph:X"` in HTML attributes): every link the global regular
 * expression finds is replaced by a trusted command link whose argument is
 * `encodeURI(JSON.stringify("solargraph:" + X))`.
 */
module LinkRewriter {
  import opened Js
  import opened Splice
  import opened Encoding

  /** The two spellings of a link: in parentheses (Markdown) or in double quotes (HTML). */
  datatype LinkForm = Markdown | HtmlAttribute

  function Open(f: LinkForm): char
  {
    if f.Markdown? then '(' else '"'
  }

  function Close(f: LinkForm): char
  {
    if f.Markdown? then ')' else '"'
  }

  const Scheme: string := "solargraph:"
  const CommandPrefix: string := "command:solargraph._openDocumentUrl?"

  /** What every link starts with: the opening delimiter and the scheme. */
  function Marker(f: LinkForm): (m: string)
    ensures |m| == 12 && m[0] == Open(f) && m[1..] == Scheme
  {
    [Open(f)] + Scheme
  }

  /** The characters at which the lazy `(.*?)` of the expression must stop. */
  predicate Stops(f: LinkForm, c: char)
  {
    c == Close(f) || IsLineTerminator(c)
  }

  /** The first index at or after k holding a stopping character. */
  function StopFrom(f: LinkForm, s: string, k: nat): (r: Option<nat>)
    decreases |s| - k
    ensures r.Some? ==> k <= r.value < |s| && Stops(f, s[r.value])
  {
    if k >= |s| then None else if Stops(f, s[k]) then Some(k) else StopFrom(f, s, k + 1)
  }

  /** No stopping character lies between k and the one StopFrom finds. */
  lemma {:induction false} StopFromIsFirst(f: LinkForm, s: string, k: nat, j: nat)
    requires k <= j < |s|
    requires StopFrom(f, s, k).None? || j < StopFrom(f, s, k).value
    ensures !Stops(f, s[j])
    decreases |s| - k
  {
    if j > k {
      StopFromIsFirst(f, s, k + 1, j);
    }
  }

  /** s holds the marker at index i. */
  predicate MarkerAt(f: LinkForm, s: string, i: nat)
  {
    i + 12 <= |s| && s[i..i + 12] == Marker(f)
  }

  /** s[i..j] is a link: the marker, a text without stopping characters, the closing delimiter. */
  predicate IsLinkAt(f: LinkForm, s: string, i: nat, j: nat)
  {
    i + 13 <= j <= |s| && MarkerAt(f, s, i) && s[j - 1] == Close(f) &&
    forall k :: i + 12 <= k < j - 1 ==> !Stops(f, s[k])
  }

  /** The end of the link the expression matches at index i of s, if any. */
  function LinkEnd(f: LinkForm, s: string, i: nat): (r: Option<nat>)
    ensures r.Some? ==> i + 13 <= r.value <= |s|
  {
    if MarkerAt(f, s, i) then
      match StopFrom(f, s, i + 12)
      case Some(j) => if s[j] == Close(f) then Some(j + 1) else None
      case None => None
    else None
  }

  /** LinkEnd finds exactly the links. */
  lemma LinkEndIsLink(f: LinkForm, s: string, i: nat, j: nat)
    ensures LinkEnd(f, s, i) == Some(j) <==> IsLinkAt(f, s, i, j)
  {
    if LinkEnd(f, s, i) == Some(j) {
      forall k | i + 12 <= k < j - 1 ensures !Stops(f, s[k]) {
        StopFromIsFirst(f, s, i + 12, k);
      }
    }
    if IsLinkAt(f, s, i, j) {
      var r := StopFrom(f, s, i + 12);
      if r.None? || r.value > j - 1 {
        StopFromIsFirst(f, s, i + 12, j - 1);
      }
    }
  }

  /** `regexp.exec(s)` with `lastIndex` equal to i: the leftmost link starting at or after i. */
  function NextLink(f: LinkForm, s: string, i: nat): (r: Option<Span>)
    decreases |s| - i
    ensures r.Some? ==> i <= r.value.start && r.value.start + 13 <= r.value.end <= |s|
  {
    if i >= |s| then None
    else match LinkEnd(f, s, i)
      case Some(j) => Some(Span(i, j))
      case None => NextLink(f, s, i + 1)
  }

  /** The link NextLink reports is one. */
  lemma {:induction false} NextLinkFinds(f: LinkForm, s: string, i: nat, m: Span)
    requires NextLink(f, s, i) == Some(m)
    ensures m.start < |s| && LinkEnd(f, s, m.start) == Some(m.end)
    decreases |s| - i
  {
    if LinkEnd(f, s, i).None? {
      NextLinkFinds(f, s, i + 1, m);
    }
  }

  /** No link starts between i and the one NextLink finds. */
  lemma {:induction false} NextLinkIsLeftmost(f: LinkForm, s: string, i: nat, q: nat)
    requires i <= q
    requires NextLink(f, s, i).None? || q < NextLink(f, s, i).value.start
    ensures LinkEnd(f, s, q) == None
    decreases |s| - i
  {
    if q >= |s| {
    } else if q > i {
      NextLinkIsLeftmost(f, s, i + 1, q);
    }
  }

  /** Every link the global expression finds from index i on, in order. */
  function Links(f: LinkForm, s: string, i: nat): (ms: seq<Span>)
    requires i <= |s|
    decreases |s| - i
    ensures Ordered(s, ms, i)
  {
    match NextLink(f, s, i)
    case None => []
    case Some(m) =>
      var rest := Links(f, s, m.end);
      assert ([m] + rest)[1..] == rest;
      [m] + rest
  }

  /** The first link found from i, and the ones after it. */
  lemma LinksCons(f: LinkForm, s: string, i: nat)
    requires i <= |s| && NextLink(f, s, i).Some?
    ensures var m := NextLink(f, s, i).value; var ms := Links(f, s, i);
      |ms| > 0 && ms[0] == m && ms[1..] == Links(f, s, m.end)
  {
    var m := NextLink(f, s, i).value;
    var rest := Links(f, s, m.end);
    assert Links(f, s, i) == [m] + rest;
    assert ([m] + rest)[1..] == rest;
  }

  /** The text X of a link `<open>solargraph:X<close>`. */
  function Inner(t: string): string
  {
    if |t| >= 13 then t[12..|t| - 1] else ""
  }

  lemma InnerOfSlice(s: string, a: nat, b: nat)
    requires a + 13 <= b <= |s|
    ensures Inner(s[a..b]) == s[a + 12..b - 1]
  {
    var u := s[a..b][12..b - a - 1];
    var v := s[a + 12..b - 1];
    forall i | 0 <= i < |u| ensures u[i] == v[i] {
      assert u[i] == s[a + 12 + i];
    }
  }

  /** The command link that replaces the link whose text is x. */
  function CommandLink(f: LinkForm, x: string): string
  {
    [Open(f)] + CommandPrefix + EncodeArgument(Scheme + x) + [Close(f)]
  }

  /** The command links replacing the matched link texts ts, one for one. */
  function Replacements(f: LinkForm, ts: seq<string>): (rs: seq<string>)
    decreases |ts|
    ensures |rs| == |ts|
    ensures forall k :: 0 <= k < |ts| ==> rs[k] == CommandLink(f, Inner(ts[k]))
  {
    if |ts| == 0 then [] else [CommandLink(f, Inner(ts[0]))] + Replacements(f, ts[1..])
  }

  lemma ReplacementsCons(f: LinkForm, ts: seq<string>)
    requires |ts| > 0
    ensures Replacements(f, ts)[0] == CommandLink(f, Inner(ts[0]))
    ensures Replacements(f, ts)[1..] == Replacements(f, ts[1..])
  {
    var rest := Replacements(f, ts[1..]);
    assert ([CommandLink(f, Inner(ts[0]))] + rest)[1..] == rest;
  }

  /** The matched link texts of `text`, in order. */
  function LinkTexts(f: LinkForm, text: string): seq<string>
  {
    Texts(text, Links(f, text, 0), 0)
  }

  /** What the source's loop computes: each link, in turn, replaced where its text first occurs. */
  function SequentialRewrite(f: LinkForm, text: string): string
  {
    var ts := LinkTexts(f, text);
    Sequential(text, ts, Replacements(f, ts))
  }

  /** The same loop with `replace` reading `$` patterns in the command link, as JavaScript does. */
  function SequentialRewritePattern(f: LinkForm, text: string): string
  {
    var ts := LinkTexts(f, text);
    SequentialPattern(text, ts, Replacements(f, ts))
  }

  /** The intended result: from index i on, every link replaced where it stands, all other text kept. */
  function Rewritten(f: LinkForm, s: string, i: nat): string
    decreases |s| - i
  {
    if i >= |s| then ""
    else match LinkEnd(f, s, i)
      case Some(j) => CommandLink(f, s[i + 12..j - 1]) + Rewritten(f, s, j)
      case None => [s[i]] + Rewritten(f, s, i + 1)
  }

  /** What the loop still has to do once it has found the links before index i. */
  function Remaining(f: LinkForm, text: string, i: nat, adjusted: string): string
    requires i <= |text|
  {
    var ts := Texts(text, Links(f, text, i), i);
    SequentialPattern(adjusted, ts, Replacements(f, ts))
  }

  /** One turn of the rewrite loop. */
  lemma RewriteStep(f: LinkForm, text: string, i: nat, adjusted: string, sp: Span, commandUri: string)
    requires i <= |text| && NextLink(f, text, i) == Some(sp)
    requires commandUri == CommandLink(f, text[sp.start + 12..sp.end - 1])
    ensures Remaining(f, text, sp.end, ReplaceFirstPattern(adjusted, text[sp.start..sp.end], commandUri))
      == Remaining(f, text, i, adjusted)
  {
    InnerOfSlice(text, sp.start, sp.end);
    LinksCons(f, text, i);
    var ms := Links(f, text, i);
    TextsCons(text, ms, i);
    var ts := Texts(text, ms, i);
    var rs := Replacements(f, ts);
    SequentialPatternCons(adjusted, ts, rs);
    ReplacementsCons(f, ts);
  }

  /**
   * The rewrite loop as written: `regexp.exec` over the original text, and
   * `adjusted.replace(match[0], commandUri)` on the rewritten one, which
   * replaces the first occurrence and reads `$` patterns in `commandUri`.
   */
  method RewriteLinksAsWritten(f: LinkForm, text: string) returns (adjusted: string)
    ensures adjusted == SequentialRewritePattern(f, text)
  {
    adjusted := text;
    var lastIndex := 0;
    var m := NextLink(f, text, lastIndex);
    while m.Some?
      invariant lastIndex <= |text|
      invariant m == NextLink(f, text, lastIndex)
      invariant Remaining(f, text, lastIndex, adjusted) == SequentialRewritePattern(f, text)
      decreases |text| - lastIndex
    {
      var sp := m.value;
      var commandUri := CommandLink(f, text[sp.start + 12..sp.end - 1]);
      RewriteStep(f, text, lastIndex, adjusted, sp, commandUri);
      adjusted := ReplaceFirstPattern(adjusted, text[sp.start..sp.end], commandUri);
      lastIndex := sp.end;
      m := NextLink(f, text, lastIndex);
    }
    assert Links(f, text, lastIndex) == [];
  }

  /**
   * The rewrite with the evident intent: the same `regexp.exec` loop, each
   * link replaced where it was found, its command link inserted literally.
   */
  method RewriteLinks(f: LinkForm, text: string) returns (adjusted: string)
    ensures adjusted == Rewritten(f, text, 0)
  {
    adjusted := "";
    var lastIndex := 0;
    var m := NextLink(f, text, lastIndex);
    while m.Some?
      invariant lastIndex <= |text|
      invariant m == NextLink(f, text, lastIndex)
      invariant adjusted + Rewritten(f, text, lastIndex) == Rewritten(f, text, 0)
      decreases |text| - lastIndex
    {
      var a, b := m.value.start, m.value.end;
      var commandUri := CommandLink(f, text[a + 12..b - 1]);
      var piece := text[lastIndex..a] + commandUri;
      RewriteAppend(f, text, lastIndex, a, b, adjusted, commandUri, piece);
      adjusted := adjusted + piece;
      lastIndex := b;
      m := NextLink(f, text, lastIndex);
    }
    NoLinkRewritten(f, text, lastIndex);
    adjusted := adjusted + text[lastIndex..];
  }

  /** One turn of the intended rewrite: the gap before the link and its command link are final. */
  lemma RewriteAppend(f: LinkForm, text: string, i: nat, a: nat, b: nat, adjusted: string, commandUri: string, piece: string)
    requires i <= |text| && NextLink(f, text, i) == Some(Span(a, b))
    requires commandUri == CommandLink(f, text[a + 12..b - 1]) && piece == text[i..a] + commandUri
    ensures adjusted + Rewritten(f, text, i) == (adjusted + piece) + Rewritten(f, text, b)
  {
    RewrittenFirstLink(f, text, i, a, b);
  }

  /** Text in which no link starts is copied unchanged. */
  lemma {:induction false} GapRewritten(f: LinkForm, s: string, i: nat, k: nat)
    requires i <= k <= |s|
    requires forall q :: i <= q < k ==> LinkEnd(f, s, q) == None
    ensures Rewritten(f, s, i) == s[i..k] + Rewritten(f, s, k)
    decreases k - i
  {
    if i < k {
      GapRewritten(f, s, i + 1, k);
      RewrittenNoLink(f, s, i);
      assert s[i..k] == [s[i]] + s[i + 1..k];
      Nest(Rewritten(f, s, i), [s[i]], Rewritten(f, s, i + 1), s[i + 1..k], Rewritten(f, s, k));
    }
  }

  /** Where no link starts, the intended rewrite copies one character and goes on. */
  lemma RewrittenNoLink(f: LinkForm, s: string, i: nat)
    requires i < |s| && LinkEnd(f, s, i) == None
    ensures Rewritten(f, s, i) == [s[i]] + Rewritten(f, s, i + 1)
  {
    match LinkEnd(f, s, i)
    case None =>
  }

  /** At a link, the intended rewrite emits its command link and goes on after it. */
  lemma RewrittenAtLink(f: LinkForm, s: string, a: nat, b: nat)
    requires a < |s| && LinkEnd(f, s, a) == Some(b)
    ensures Rewritten(f, s, a) == CommandLink(f, s[a + 12..b - 1]) + Rewritten(f, s, b)
  {
    match LinkEnd(f, s, a)
    case Some(j) =>
      assert j == b;
  }

  /** The first link found from i, its replacement, and what follows. */
  lemma RewriteCons(f: LinkForm, s: string, i: nat, a: nat, b: nat, ms: seq<Span>, ms': seq<Span>)
    requires i <= |s| && NextLink(f, s, i) == Some(Span(a, b))
    requires ms == Links(f, s, i) && ms' == Links(f, s, b)
    ensures Simultaneous(s, ms, i, Replacements(f, Texts(s, ms, i)))
        == s[i..a] + CommandLink(f, s[a + 12..b - 1]) + Simultaneous(s, ms', b, Replacements(f, Texts(s, ms', b)))
  {
    var ts := Texts(s, ms, i);
    var rs := Replacements(f, ts);
    LinksCons(f, s, i);
    TextsCons(s, ms, i);
    ReplacementsCons(f, ts);
    InnerOfSlice(s, a, b);
    assert rs[0] == CommandLink(f, s[a + 12..b - 1]);
    assert rs[1..] == Replacements(f, Texts(s, ms', b));
    SimultaneousCons(s, ms, i, rs);
  }

  /** Text in which the expression finds no link is its own rewrite. */
  lemma NoLinkRewritten(f: LinkForm, s: string, i: nat)
    requires i <= |s| && NextLink(f, s, i).None?
    ensures Rewritten(f, s, i) == s[i..]
  {
    forall q | i <= q < |s| ensures LinkEnd(f, s, q) == None {
      NextLinkIsLeftmost(f, s, i, q);
    }
    GapRewritten(f, s, i, |s|);
  }

  /** Without a marker from index i on, the expression finds no link. */
  lemma {:induction false} NoMarkerNoLink(f: LinkForm, s: string, i: nat)
    requires forall k: nat :: i <= k ==> !MarkerAt(f, s, k)
    ensures NextLink(f, s, i).None?
    decreases |s| - i
  {
    if i < |s| {
      NoMarkerNoLink(f, s, i + 1);
    }
  }

  /** A text holding no `solargraph:` marker is passed through unchanged. */
  lemma NoMarkerUnchanged(f: LinkForm, s: string)
    requires forall k: nat :: !MarkerAt(f, s, k)
    ensures Rewritten(f, s, 0) == s
  {
    NoMarkerNoLink(f, s, 0);
    NoLinkRewritten(f, s, 0);
  }

  /** The text before the first link is copied unchanged. */
  lemma RewrittenBeforeLink(f: LinkForm, s: string, i: nat, a: nat, b: nat)
    requires i <= |s| && NextLink(f, s, i) == Some(Span(a, b))
    ensures Rewritten(f, s, i) == s[i..a] + Rewritten(f, s, a)
  {
    forall q | i <= q < a ensures LinkEnd(f, s, q) == None {
      NextLinkIsLeftmost(f, s, i, q);
    }
    GapRewritten(f, s, i, a);
  }

  lemma Nest(x: string, g: string, y: string, c: string, z: string)
    requires x == g + y && y == c + z
    ensures x == g + c + z
  {
  }

  /** The intended rewrite from i: the text before the first link, its command link, and the rewrite after it. */
  lemma RewrittenFirstLink(f: LinkForm, s: string, i: nat, a: nat, b: nat)
    requires i <= |s| && NextLink(f, s, i) == Some(Span(a, b))
    ensures Rewritten(f, s, i) == s[i..a] + CommandLink(f, s[a + 12..b - 1]) + Rewritten(f, s, b)
  {
    RewrittenBeforeLink(f, s, i, a, b);
    NextLinkFinds(f, s, i, Span(a, b));
    RewrittenAtLink(f, s, a, b);
    Nest(Rewritten(f, s, i), s[i..a], Rewritten(f, s, a), CommandLink(f, s[a + 12..b - 1]), Rewritten(f, s, b));
  }

  /** One link further: if the splice after the first link is the intended rewrite there, it is from i too. */
  lemma SpliceStep(f: LinkForm, s: string, i: nat, a: nat, b: nat, ms: seq<Span>, ms': seq<Span>)
    requires i <= |s| && NextLink(f, s, i) == Some(Span(a, b))
    requires ms == Links(f, s, i) && ms' == Links(f, s, b)
    requires Simultaneous(s, ms', b, Replacements(f, Texts(s, ms', b))) == Rewritten(f, s, b)
    ensures Simultaneous(s, ms, i, Replacements(f, Texts(s, ms, i))) == Rewritten(f, s, i)
  {
    RewrittenFirstLink(f, s, i, a, b);
    RewriteCons(f, s, i, a, b, ms, ms');
  }

  /** Replacing each link where it stands is the intended rewrite. */
  lemma {:induction false} SpliceIsRewritten(f: LinkForm, s: string, i: nat)
    requires i <= |s|
    ensures var ms := Links(f, s, i);
      Simultaneous(s, ms, i, Replacements(f, Texts(s, ms, i))) == Rewritten(f, s, i)
    decreases |s| - i
  {
    match NextLink(f, s, i)
    case None =>
      NoLinkRewritten(f, s, i);
    case Some(Span(a, b)) =>
      SpliceIsRewritten(f, s, b);
      SpliceStep(f, s, i, a, b, Links(f, s, i), Links(f, s, b));
  }

  /** A command link holds a `$` only when the link text did: no other part of it has one. */
  lemma CommandLinkDollar(f: LinkForm, x: string)
    requires '$' in CommandLink(f, x)
    ensures '$' in x
  {
    var arg := EncodeArgument(Scheme + x);
    assert CommandLink(f, x) == ([Open(f)] + CommandPrefix) + arg + [Close(f)];
    NoDollarInConstants();
    assert '$' in arg;
    EncodedOnlyKeeps(Scheme + x, '$');
  }

  lemma NoDollarInConstants()
    ensures '$' !in CommandPrefix && '$' !in Scheme
  {
  }

  /** A link text is part of the matched link. */
  lemma InnerDollar(t: string)
    requires '$' in Inner(t)
    ensures '$' in t
  {
    var i :| 0 <= i < |Inner(t)| && Inner(t)[i] == '$';
    assert t[12 + i] == '$';
  }

  /**
   * The loop as written agrees with the intended rewrite when no link holds
   * a `$` and each link, when its turn comes, is first found in its own
   * place.
   */
  lemma AsWrittenAgrees(f: LinkForm, text: string)
    requires forall k :: 0 <= k < |LinkTexts(f, text)| ==> '$' !in LinkTexts(f, text)[k]
    requires InPlace("", text, Links(f, text, 0), 0, Replacements(f, LinkTexts(f, text)))
    ensures SequentialRewritePattern(f, text) == Rewritten(f, text, 0)
  {
    var ms := Links(f, text, 0);
    var ts := LinkTexts(f, text);
    PlainAgrees(f, text, ms, ts, Replacements(f, ts));
  }

  lemma PlainAgrees(f: LinkForm, text: string, ms: seq<Span>, ts: seq<string>, rs: seq<string>)
    requires ms == Links(f, text, 0) && ts == Texts(text, ms, 0) && rs == Replacements(f, ts)
    requires forall k :: 0 <= k < |ts| ==> '$' !in ts[k]
    requires InPlace("", text, ms, 0, rs)
    ensures SequentialPattern(text, ts, rs) == Rewritten(f, text, 0)
  {
    forall k | 0 <= k < |rs| ensures '$' !in rs[k] {
      if '$' in rs[k] {
        CommandLinkDollar(f, Inner(ts[k]));
        InnerDollar(ts[k]);
      }
    }
    SequentialPatternPlain(text, ts, rs);
    assert "" + text[0..] == text;
    SequentialIsSplice("", text, ms, 0, rs);
    SpliceIsRewritten(f, text, 0);
  }

  /**
   * The loop as written finds link m of s in its own place when its text
   * holds no opening delimiter and, in HTML, no `solargraph:` follows its
   * closing quote directly (in HTML the first condition always holds).
   */
  predicate Apart(f: LinkForm, s: string, m: Span)
  {
    (forall k :: m.start + 12 <= k < m.end - 1 && k < |s| ==> s[k] != Open(f)) &&
    (f.HtmlAttribute? ==> !(m.end + 11 <= |s| && s[m.end..m.end + 11] == Scheme))
  }

  /** t is a whole link whose text holds no opening delimiter. */
  predicate LinkShaped(f: LinkForm, t: string)
  {
    IsLinkAt(f, t, 0, |t|) && forall k :: 12 <= k < |t| - 1 ==> t[k] != Open(f)
  }

  lemma SchemePlain(i: nat)
    requires i < |Scheme|
    ensures Scheme[i] != '(' && Scheme[i] != ')' && Scheme[i] != '"'
  {
  }

  /** Such a link opens with its delimiter and the scheme; inside it there is no delimiter. */
  lemma ShapedInterior(f: LinkForm, t: string, k: int)
    ensures LinkShaped(f, t) ==> t[0] == Open(f) && t[1..12] == Scheme
    ensures LinkShaped(f, t) && 0 < k < |t| - 1 ==> t[k] != Open(f) && t[k] != Close(f)
  {
    if LinkShaped(f, t) {
      assert t[0..12] == Marker(f);
      assert t[1..12] == Marker(f)[1..];
      if 0 < k < 12 {
        assert t[k] == Marker(f)[1..][k - 1];
        SchemePlain(k - 1);
      }
    }
  }

  /** A link shape found in s is a link of s. */
  lemma ShapedIsLink(f: LinkForm, s: string, q: nat, j: nat)
    requires q <= j <= |s|
    ensures LinkShaped(f, s[q..j]) ==> IsLinkAt(f, s, q, j)
  {
    var t := s[q..j];
    if LinkShaped(f, t) {
      assert s[q..q + 12] == t[0..12];
      forall k | q + 12 <= k < j - 1 ensures !Stops(f, s[k]) {
        assert s[k] == t[k - q];
      }
      assert s[j - 1] == t[|t| - 1];
    }
  }

  /** A link of s whose text holds no opening delimiter has the link shape. */
  lemma LinkIsShaped(f: LinkForm, s: string, a: nat, b: nat)
    requires IsLinkAt(f, s, a, b)
    requires forall k :: a + 12 <= k < b - 1 ==> s[k] != Open(f)
    ensures LinkShaped(f, s[a..b])
  {
    var t := s[a..b];
    assert t[0..12] == s[a..a + 12];
    forall k | 12 <= k < |t| - 1 ensures !Stops(f, t[k]) && t[k] != Open(f) {
      assert t[k] == s[a + k];
    }
  }

  /** The command link holds its opening delimiter only first, when the link text holds none. */
  lemma CommandLinkShape(f: LinkForm, x: string)
    requires Open(f) !in x
    ensures var r := CommandLink(f, x);
      |r| >= 2 && r[0] == Open(f) && r[1] == CommandPrefix[0] && r[|r| - 1] == Close(f) &&
      forall k :: 0 < k < |r| - 1 ==> r[k] != Open(f)
  {
    var arg := EncodeArgument(Scheme + x);
    NoOpenEncoded(f, x);
    PrefixPlain(f);
    DelimitedShape(f, CommandPrefix, arg);
  }

  /** The command prefix holds neither delimiter. */
  lemma PrefixPlain(f: LinkForm)
    ensures Open(f) !in CommandPrefix
  {
  }

  /** A plain text between the two delimiters has the opening one only at its head. */
  lemma DelimitedShape(f: LinkForm, p: string, arg: string)
    requires |p| > 0 && Open(f) !in p && Open(f) !in arg
    ensures var r := [Open(f)] + p + arg + [Close(f)];
      |r| >= 2 && r[0] == Open(f) && r[1] == p[0] && r[|r| - 1] == Close(f) &&
      forall k :: 0 < k < |r| - 1 ==> r[k] != Open(f)
  {
    var pre := [Open(f)] + p;
    var r := pre + arg + [Close(f)];
    forall k | 0 < k < |r| - 1 ensures r[k] != Open(f) {
      if k < |pre| {
        assert r[k] == p[k - 1];
      } else {
        assert r[k] == arg[k - |pre|];
      }
    }
  }

  /** The encoded argument holds no opening delimiter when the link text holds none. */
  lemma NoOpenEncoded(f: LinkForm, x: string)
    requires Open(f) !in x
    ensures Open(f) !in EncodeArgument(Scheme + x)
  {
    assert Open(f) !in Scheme by {
      forall i | 0 <= i < |Scheme| ensures Scheme[i] != Open(f) {
        SchemePlain(i);
      }
    }
    if Open(f) in EncodeArgument(Scheme + x) {
      if f.Markdown? {
        EncodedOnlyKeeps(Scheme + x, '(');
      } else {
        EncodedAlphabet(Scheme + x, '"');
      }
    }
  }

  /**
   * A link shape cannot run from a text ending in a closing delimiter into
   * what follows, except in HTML from that very quote, the scheme following it.
   */
  lemma ShapedAcross(f: LinkForm, w: string, n: nat, p: nat, e: nat)
    requires 0 < n <= |w| && w[n - 1] == Close(f)
    requires p < n < e <= |w|
    ensures LinkShaped(f, w[p..e]) ==>
      f.HtmlAttribute? && p == n - 1 && n + 11 <= |w| && w[n..n + 11] == Scheme
  {
    var t := w[p..e];
    ShapedInterior(f, t, n - 1 - p);
    assert t[n - 1 - p] == Close(f);
    if p == n - 1 && e >= n + 11 {
      forall i | 0 <= i < 11 ensures w[n + i] == t[1..12][i] {
        assert t[1 + i] == w[p + 1 + i];
      }
      assert w[n..n + 11] == t[1..12];
    }
  }

  /** No link shape starts in the untouched text between from and the next link. */
  lemma NoShapedInGap(f: LinkForm, s: string, from: nat, a: nat, b: nat, done: string, p: nat, e: nat)
    requires from <= |s| && NextLink(f, s, from) == Some(Span(a, b))
    requires |done| <= p < |done| + (a - from) && p <= e <= |done| + (|s| - from)
    ensures !LinkShaped(f, (done + s[from..])[p..e])
  {
    var q := p - |done| + from;
    var j := q + (e - p);
    assert (done + s[from..])[p..e] == s[q..j];
    ShapedIsLink(f, s, q, j);
    LinkEndIsLink(f, s, q, j);
    NextLinkIsLeftmost(f, s, from, q);
  }

  /** No link shape lies inside done, which is empty or ends with a closing delimiter. */
  predicate Clean(f: LinkForm, done: string)
  {
    (|done| == 0 || done[|done| - 1] == Close(f)) &&
    forall p, e :: 0 <= p <= e <= |done| ==> !LinkShaped(f, done[p..e])
  }

  /** In the text rewritten so far, the next link's text is first found at its own place. */
  lemma FoundInPlace(f: LinkForm, s: string, from: nat, a: nat, b: nat, done: string)
    requires from <= |s| && NextLink(f, s, from) == Some(Span(a, b))
    requires Clean(f, done)
    requires |done| > 0 && f.HtmlAttribute? ==> !(from + 11 <= |s| && s[from..from + 11] == Scheme)
    requires forall k :: a + 12 <= k < b - 1 ==> s[k] != Open(f)
    ensures IndexOf(done + s[from..], s[a..b]) == |done| + (a - from)
  {
    var w := done + s[from..];
    var t := s[a..b];
    var n := |done| + (a - from);
    NextLinkShaped(f, s, from, a, b);
    OccursInPlace(done, s, from, a, b);
    forall j: nat | j < n ensures !OccursAt(w, t, j) {
      NotFoundBefore(f, s, from, a, b, done, j);
    }
    IndexOfAt(w, t, n);
  }

  /** The link the expression finds, when its text holds no opening delimiter, has the link shape. */
  lemma NextLinkShaped(f: LinkForm, s: string, from: nat, a: nat, b: nat)
    requires from <= |s| && NextLink(f, s, from) == Some(Span(a, b))
    requires forall k :: a + 12 <= k < b - 1 ==> s[k] != Open(f)
    ensures LinkShaped(f, s[a..b])
  {
    NextLinkFinds(f, s, from, Span(a, b));
    LinkEndIsLink(f, s, a, b);
    LinkIsShaped(f, s, a, b);
  }

  /** An earlier occurrence of a link shape would be a link shape inside done, across its end, or in the gap. */
  lemma NotFoundBefore(f: LinkForm, s: string, from: nat, a: nat, b: nat, done: string, j: nat)
    requires from <= |s| && NextLink(f, s, from) == Some(Span(a, b))
    requires Clean(f, done)
    requires |done| > 0 && f.HtmlAttribute? ==> !(from + 11 <= |s| && s[from..from + 11] == Scheme)
    requires LinkShaped(f, s[a..b])
    requires j < |done| + (a - from)
    ensures !OccursAt(done + s[from..], s[a..b], j)
  {
    var w := done + s[from..];
    var e := j + (b - a);
    if e <= |w| {
      if e <= |done| {
        assert w[j..e] == done[j..e];
      } else if j < |done| {
        NotFoundAcross(f, s, from, done, j, e);
      } else {
        NoShapedInGap(f, s, from, a, b, done, j, e);
      }
    }
  }

  lemma NotFoundAcross(f: LinkForm, s: string, from: nat, done: string, j: nat, e: nat)
    requires from <= |s| && Clean(f, done)
    requires |done| > 0 && f.HtmlAttribute? ==> !(from + 11 <= |s| && s[from..from + 11] == Scheme)
    requires j < |done| < e <= |done| + (|s| - from)
    ensures !LinkShaped(f, (done + s[from..])[j..e])
  {
    var w := done + s[from..];
    ShapedAcross(f, w, |done|, j, e);
    if |done| + 11 <= |w| {
      forall i | |done| <= i < |done| + 11 ensures w[i] == s[from..from + 11][i - |done|] {
      }
      assert w[|done|..|done| + 11] == s[from..from + 11];
    }
  }

  /** A link shape cannot run from done into the gap and command link appended to it. */
  lemma CleanAcross(f: LinkForm, s: string, from: nat, a: nat, done: string, r: string, p: nat, e: nat)
    requires Clean(f, done) && from <= a <= |s| && |r| >= 1 && r[0] == Open(f)
    requires f.HtmlAttribute? ==> !(from + 11 <= |s| && s[from..from + 11] == Scheme)
    requires p < |done| < e <= |done| + (a - from) + |r|
    ensures !LinkShaped(f, (done + s[from..a] + r)[p..e])
  {
    var g := s[from..a];
    var w := done + g + r;
    ShapedAcross(f, w, |done|, p, e);
    if |done| + 11 <= |w| {
      if |g| >= 11 {
        forall i | |done| <= i < |done| + 11 ensures w[i] == s[from..from + 11][i - |done|] {
          assert w[i] == g[i - |done|];
        }
        assert w[|done|..|done| + 11] == s[from..from + 11];
      } else {
        assert w[|done|..|done| + 11][|g|] == r[0];
        SchemePlain(|g|);
      }
    }
  }

  /** A link shape starting in the gap stays in it, so it would be a link the expression skipped. */
  lemma CleanGap(f: LinkForm, s: string, from: nat, a: nat, b: nat, done: string, r: string, p: nat, e: nat)
    requires from <= |s| && NextLink(f, s, from) == Some(Span(a, b))
    requires |r| >= 1 && r[0] == Open(f) && a < |s| && s[a] == Open(f)
    requires |done| <= p < |done| + (a - from) && p <= e <= |done| + (a - from) + |r|
    ensures !LinkShaped(f, (done + s[from..a] + r)[p..e])
  {
    var w := done + s[from..a] + r;
    var n := |done| + (a - from);
    if e <= n + 1 {
      forall i | p <= i < e ensures w[i] == (done + s[from..])[i] {
        if i == n {
          assert (done + s[from..])[i] == s[a];
        }
      }
      assert w[p..e] == (done + s[from..])[p..e];
      NoShapedInGap(f, s, from, a, b, done, p, e);
    } else {
      ShapedInterior(f, w[p..e], n - p);
      assert w[p..e][n - p] == r[0];
    }
  }

  /** No link shape starts inside a command link whose text holds no opening delimiter. */
  lemma CleanInside(f: LinkForm, done: string, g: string, r: string, p: nat, e: nat)
    requires |r| >= 2 && r[0] == Open(f) && r[1] == CommandPrefix[0]
    requires forall k :: 0 < k < |r| - 1 ==> r[k] != Open(f)
    requires |done| + |g| <= p <= e <= |done| + |g| + |r|
    ensures !LinkShaped(f, (done + g + r)[p..e])
  {
    var t := (done + g + r)[p..e];
    var k := p - |done| - |g|;
    ShapedInterior(f, t, 0);
    if |t| >= 2 {
      assert t[0] == r[k] && t[1] == r[k + 1];
    }
  }

  /** Appending the gap and the next command link keeps the text rewritten so far clean. */
  lemma CleanStep(f: LinkForm, s: string, from: nat, a: nat, b: nat, done: string)
    requires from <= |s| && NextLink(f, s, from) == Some(Span(a, b))
    requires Clean(f, done)
    requires |done| > 0 && f.HtmlAttribute? ==> !(from + 11 <= |s| && s[from..from + 11] == Scheme)
    requires forall k :: a + 12 <= k < b - 1 ==> s[k] != Open(f)
    ensures Clean(f, done + s[from..a] + CommandLink(f, s[a + 12..b - 1]))
  {
    var x := s[a + 12..b - 1];
    var r := CommandLink(f, x);
    assert Open(f) !in x by {
      forall i | 0 <= i < |x| ensures x[i] != Open(f) {
        assert x[i] == s[a + 12 + i];
      }
    }
    CommandLinkShape(f, x);
    NextLinkOpens(f, s, from, a, b);
    NoShapedIn(f, s, from, a, b, done, r);
    CleanJoin(f, done + s[from..a], r);
  }

  /** The link the expression finds starts with the opening delimiter. */
  lemma NextLinkOpens(f: LinkForm, s: string, from: nat, a: nat, b: nat)
    requires from <= |s| && NextLink(f, s, from) == Some(Span(a, b))
    ensures a < |s| && s[a] == Open(f)
  {
    NextLinkFinds(f, s, from, Span(a, b));
    LinkEndIsLink(f, s, a, b);
    assert s[a..a + 12] == Marker(f);
  }

  lemma CleanJoin(f: LinkForm, x: string, r: string)
    requires |r| >= 1 && r[|r| - 1] == Close(f)
    requires forall p, e :: 0 <= p <= e <= |x + r| ==> !LinkShaped(f, (x + r)[p..e])
    ensures Clean(f, x + r)
  {
  }

  /** No link shape lies in done, the gap, and the command link after it. */
  lemma NoShapedIn(f: LinkForm, s: string, from: nat, a: nat, b: nat, done: string, r: string)
    requires from <= |s| && NextLink(f, s, from) == Some(Span(a, b))
    requires Clean(f, done) && a < |s| && s[a] == Open(f)
    requires |done| > 0 && f.HtmlAttribute? ==> !(from + 11 <= |s| && s[from..from + 11] == Scheme)
    requires |r| >= 2 && r[0] == Open(f) && r[1] == CommandPrefix[0]
    requires forall k :: 0 < k < |r| - 1 ==> r[k] != Open(f)
    ensures var w := done + s[from..a] + r;
      forall p, e :: 0 <= p <= e <= |w| ==> !LinkShaped(f, w[p..e])
  {
    var g := s[from..a];
    var w := done + g + r;
    forall p, e | 0 <= p <= e <= |w| ensures !LinkShaped(f, w[p..e]) {
      if e <= |done| {
        assert w[p..e] == done[p..e];
      } else if p < |done| {
        CleanAcross(f, s, from, a, done, r, p, e);
      } else if p < |done| + |g| {
        CleanGap(f, s, from, a, b, done, r, p, e);
      } else {
        CleanInside(f, done, g, r, p, e);
      }
    }
  }

  /** From index from on, with done clean, every link is found in its own place. */
  lemma {:induction false} LinksInPlace(f: LinkForm, s: string, from: nat, done: string)
    requires from <= |s| && Clean(f, done)
    requires |done| > 0 && f.HtmlAttribute? ==> !(from + 11 <= |s| && s[from..from + 11] == Scheme)
    requires forall k :: 0 <= k < |Links(f, s, from)| ==> Apart(f, s, Links(f, s, from)[k])
    ensures InPlace(done, s, Links(f, s, from), from, Replacements(f, Texts(s, Links(f, s, from), from)))
    decreases |s| - from
  {
    match NextLink(f, s, from)
    case None =>
    case Some(m) =>
      var a, b := m.start, m.end;
      var ms := Links(f, s, from);
      var rs := Replacements(f, Texts(s, ms, from));
      LinkTurn(f, s, from, a, b);
      ApartFirst(f, s, from, a, b);
      FoundInPlace(f, s, from, a, b, done);
      CleanStep(f, s, from, a, b, done);
      LinksInPlace(f, s, b, done + s[from..a] + rs[0]);
  }

  /** The first link found from index from, its command link, and the links after it. */
  lemma LinkTurn(f: LinkForm, s: string, from: nat, a: nat, b: nat)
    requires from <= |s| && NextLink(f, s, from) == Some(Span(a, b))
    ensures var ms := Links(f, s, from); var rs := Replacements(f, Texts(s, ms, from));
      |ms| > 0 && ms[0] == Span(a, b) && ms[1..] == Links(f, s, b) &&
      rs[0] == CommandLink(f, s[a + 12..b - 1]) &&
      rs[1..] == Replacements(f, Texts(s, Links(f, s, b), b))
  {
    var ms := Links(f, s, from);
    LinksCons(f, s, from);
    TextsCons(s, ms, from);
    ReplacementsCons(f, Texts(s, ms, from));
    InnerOfSlice(s, a, b);
  }

  /** The first link found from index from is apart, and so are the links after it. */
  lemma ApartFirst(f: LinkForm, s: string, from: nat, a: nat, b: nat)
    requires from <= |s| && NextLink(f, s, from) == Some(Span(a, b))
    requires forall k :: 0 <= k < |Links(f, s, from)| ==> Apart(f, s, Links(f, s, from)[k])
    ensures forall k :: a + 12 <= k < b - 1 ==> s[k] != Open(f)
    ensures f.HtmlAttribute? ==> !(b + 11 <= |s| && s[b..b + 11] == Scheme)
    ensures forall k :: 0 <= k < |Links(f, s, b)| ==> Apart(f, s, Links(f, s, b)[k])
  {
    var ms := Links(f, s, from);
    LinksCons(f, s, from);
    assert Apart(f, s, ms[0]);
    forall k | 0 <= k < |ms[1..]| ensures Apart(f, s, ms[1..][k]) {
      assert ms[1..][k] == ms[k + 1];
    }
  }

  /**
   * The loop as written is the intended rewrite when no link holds a `$`
   * and every link is apart: all of InPlace follows.
   */
  lemma AsWrittenIsRewritten(f: LinkForm, text: string)
    requires forall k :: 0 <= k < |LinkTexts(f, text)| ==> '$' !in LinkTexts(f, text)[k]
    requires forall k :: 0 <= k < |Links(f, text, 0)| ==> Apart(f, text, Links(f, text, 0)[k])
    ensures SequentialRewritePattern(f, text) == Rewritten(f, text, 0)
  {
    LinksInPlace(f, text, 0, "");
    AsWrittenAgrees(f, text);
  }

  /** The sample text is one Markdown link, whose text is `$$`. */
  lemma DollarLinkFound(s: string)
    requires s == "(solargraph:$$)"
    ensures Links(Markdown, s, 0) == [Span(0, |s|)]
    ensures Inner(s) == "$$"
  {
    assert s[0..12] == Marker(Markdown);
    assert StopFrom(Markdown, s, 14) == Some(14);
    assert StopFrom(Markdown, s, 13) == Some(14);
    assert StopFrom(Markdown, s, 12) == Some(14);
    assert LinkEnd(Markdown, s, 0) == Some(15);
    assert NextLink(Markdown, s, 0) == Some(Span(0, 15));
    assert Links(Markdown, s, 15) == [];
  }

  /** A text that is one link, as written: its command link with `$` patterns read. */
  lemma SingleLinkAsWritten(f: LinkForm, s: string)
    requires Links(f, s, 0) == [Span(0, |s|)]
    ensures SequentialRewritePattern(f, s) == Substitution(CommandLink(f, Inner(s)), s, "", "")
  {
    assert s[0..|s|] == s;
    var ts := LinkTexts(f, s);
    assert ts == [s];
    var r := CommandLink(f, Inner(s));
    var rs := Replacements(f, ts);
    assert rs == [r];
    assert OccursAt(s, s, 0);
    IndexOfAt(s, s, 0);
    var once := ReplaceFirstPattern(s, s, r);
    assert s[..0] == "" && s[|s|..] == "";
    assert once == Substitution(r, s, "", "");
    assert SequentialPattern(s, ts, rs) == SequentialPattern(once, [], []);
  }

  /** The first link of the list is the one NextLink finds. */
  lemma LinksHead(f: LinkForm, s: string, i: nat)
    requires i <= |s| && |Links(f, s, i)| > 0
    ensures NextLink(f, s, i) == Some(Links(f, s, i)[0])
  {
  }

  /** A text that is one link is intended to become its command link. */
  lemma SingleLinkRewritten(f: LinkForm, s: string)
    requires Links(f, s, 0) == [Span(0, |s|)]
    ensures Rewritten(f, s, 0) == CommandLink(f, Inner(s))
  {
    var n := |s|;
    LinksHead(f, s, 0);
    NextLinkFinds(f, s, 0, Span(0, n));
    RewrittenFirstLink(f, s, 0, 0, n);
    InnerOfSlice(s, 0, n);
    assert s[0..n] == s;
  }

  /** `$$` passes both encoders unchanged. */
  lemma DollarsPlain(x: string)
    requires x == "$$"
    ensures JsonBody(x) == x && EncodeUri(x) == x && '$' in x
  {
    var y := x[1..];
    assert y == [x[0]] && y[1..] == [];
    assert JsonBody(y) == JsonChar('$') + JsonBody([]);
    assert EncodeUri(y) == EncodeUriChar('$') + EncodeUri([]);
  }

  lemma NoDollarJoin(a: string, b: string, c: string)
    requires '$' !in a && '$' !in b && '$' !in c
    ensures '$' !in a + b + c
  {
  }

  /** A command link whose encoded argument is e1, x, e2 in a row. */
  lemma CommandLinkParts(f: LinkForm, x: string, e1: string, e2: string)
    requires EncodeArgument(Scheme + x) == e1 + x + e2
    ensures CommandLink(f, x) == ([Open(f)] + CommandPrefix + e1) + x + (e2 + [Close(f)])
  {
    var o, c := [Open(f)], [Close(f)];
    var pre := o + CommandPrefix;
    assert CommandLink(f, x) == pre + (e1 + x + e2) + c;
  }

  /** The command link of `$$`: `$$` between parts of the command link that hold no `$`, so `replace` halves it. */
  lemma DollarCommandLink(f: LinkForm, m: string, x: string)
    requires x == "$$"
    ensures |Substitution(CommandLink(f, x), m, "", "")| + 1 == |CommandLink(f, x)|
  {
    DollarsPlain(x);
    EncodeArgumentSplit(Scheme, x);
    NoDollarInConstants();
    QuotedKeeps(Scheme, '$');
    var e1, e2 := EncodeUri("\"" + JsonBody(Scheme)), EncodeUri("\"");
    var p := [Open(f)] + CommandPrefix + e1;
    var q := e2 + [Close(f)];
    NoDollarJoin([Open(f)], CommandPrefix, e1);
    NoDollarJoin(e2, [Close(f)], "");
    assert q + "" == q;
    CommandLinkParts(f, x, e1, e2);
    DollarPairHalved(p, q, m);
  }

  /**
   * A link whose text holds `$$` loses a `$` in the loop as written, since
   * `replace` reads `$$` in the command link as one `$`; the intended
   * rewrite keeps it.
   */
  lemma DollarLinkCounterexample(s: string)
    requires s == "(solargraph:$$)"
    ensures Rewritten(Markdown, s, 0) == CommandLink(Markdown, "$$")
    ensures |SequentialRewritePattern(Markdown, s)| + 1 == |Rewritten(Markdown, s, 0)|
  {
    DollarLinkFound(s);
    SingleLinkAsWritten(Markdown, s);
    SingleLinkRewritten(Markdown, s);
    DollarCommandLink(Markdown, s, "$$");
  }
}
