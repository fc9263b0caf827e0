/**
 * `htmlToPlainText`: before the HTML documentation is handed to the
 * html2plaintext converter, every line break inside a `<pre>` block is
 * turned into `<br/>` followed by the line break, so that the converter
 * keeps preformatted lines apart.
 */
module Format {
  import opened Js
  import opened Splice

  const OpenTag: string := "<pre>"
  const CloseTag: string := "</pre>"

  /** c matches the pattern character p under the `i` flag (only ASCII letters fold). */
  predicate SameLetter(c: char, p: char)
  {
    c == p || ('a' <= p <= 'z' && c as int == p as int - 32)
  }

  /** s holds the tag w at index i, letters in either case. */
  predicate TagAt(s: string, i: nat, w: string)
  {
    i + |w| <= |s| && forall k :: 0 <= k < |w| ==> SameLetter(s[i + k], w[k])
  }

  /** The first index at or after k where a closing tag starts. */
  function CloseFrom(s: string, k: nat): (r: Option<nat>)
    decreases |s| - k
    ensures r.Some? ==> k <= r.value && TagAt(s, r.value, CloseTag)
  {
    if k >= |s| then None else if TagAt(s, k, CloseTag) then Some(k) else CloseFrom(s, k + 1)
  }

  /** No closing tag starts between k and the one CloseFrom finds. */
  lemma {:induction false} CloseFromIsFirst(s: string, k: nat, j: nat)
    requires k <= j
    requires CloseFrom(s, k).None? || j < CloseFrom(s, k).value
    ensures !TagAt(s, j, CloseTag)
    decreases |s| - k
  {
    if j >= |s| {
    } else if j > k {
      CloseFromIsFirst(s, k + 1, j);
    }
  }

  /** s[i..j] is a block: an opening tag, a text without closing tag, a closing tag. */
  predicate IsBlockAt(s: string, i: nat, j: nat)
  {
    i + 11 <= j <= |s| && TagAt(s, i, OpenTag) && TagAt(s, j - 6, CloseTag) &&
    forall k :: i + 5 <= k < j - 6 ==> !TagAt(s, k, CloseTag)
  }

  /** The end of the block `/<pre>[\s\S]*?<\/pre>/i` matches at index i, if any. */
  function BlockEnd(s: string, i: nat): (r: Option<nat>)
    ensures r.Some? ==> i + 11 <= r.value <= |s|
  {
    if TagAt(s, i, OpenTag) then
      match CloseFrom(s, i + 5)
      case Some(j) => Some(j + 6)
      case None => None
    else None
  }

  /** BlockEnd finds exactly the shortest blocks. */
  lemma BlockEndIsBlock(s: string, i: nat, j: nat)
    ensures BlockEnd(s, i) == Some(j) <==> IsBlockAt(s, i, j)
  {
    if BlockEnd(s, i) == Some(j) {
      forall k | i + 5 <= k < j - 6 ensures !TagAt(s, k, CloseTag) {
        CloseFromIsFirst(s, i + 5, k);
      }
    }
    if IsBlockAt(s, i, j) {
      var r := CloseFrom(s, i + 5);
      if r.None? || r.value > j - 6 {
        CloseFromIsFirst(s, i + 5, j - 6);
      }
    }
  }

  /** The leftmost block starting at or after i. */
  function NextBlock(s: string, i: nat): (r: Option<Span>)
    decreases |s| - i
    ensures r.Some? ==> i <= r.value.start && r.value.start + 11 <= r.value.end <= |s|
  {
    if i >= |s| then None
    else match BlockEnd(s, i)
      case Some(j) => Some(Span(i, j))
      case None => NextBlock(s, i + 1)
  }

  /** The block NextBlock reports is one. */
  lemma {:induction false} NextBlockFinds(s: string, i: nat, m: Span)
    requires NextBlock(s, i) == Some(m)
    ensures m.start < |s| && BlockEnd(s, m.start) == Some(m.end)
    decreases |s| - i
  {
    if BlockEnd(s, i).None? {
      NextBlockFinds(s, i + 1, m);
    }
  }

  /** No block starts between i and the one NextBlock finds. */
  lemma {:induction false} NextBlockIsLeftmost(s: string, i: nat, q: nat)
    requires i <= q
    requires NextBlock(s, i).None? || q < NextBlock(s, i).value.start
    ensures BlockEnd(s, q) == None
    decreases |s| - i
  {
    if q >= |s| {
    } else if q > i {
      NextBlockIsLeftmost(s, i + 1, q);
    }
  }

  /** The blocks the global expression matches from index i on, in order. */
  function Blocks(s: string, i: nat): (ms: seq<Span>)
    requires i <= |s|
    decreases |s| - i
    ensures Ordered(s, ms, i)
  {
    match NextBlock(s, i)
    case None => []
    case Some(m) =>
      var rest := Blocks(s, m.end);
      assert ([m] + rest)[1..] == rest;
      [m] + rest
  }

  lemma BlocksCons(s: string, i: nat, a: nat, b: nat)
    requires i <= |s| && NextBlock(s, i) == Some(Span(a, b))
    ensures |Blocks(s, i)| > 0 && Blocks(s, i)[0] == Span(a, b) && Blocks(s, i)[1..] == Blocks(s, b)
  {
    var rest := Blocks(s, b);
    assert Blocks(s, i) == [Span(a, b)] + rest;
    assert ([Span(a, b)] + rest)[1..] == rest;
  }

  /** `t.replace(/\n/g, "<br/>\n")`. */
  function BreakLines(t: string): (r: string)
    decreases |t|
  {
    if |t| == 0 then ""
    else (if t[0] == '\n' then "<br/>\n" else [t[0]]) + BreakLines(t[1..])
  }

  /** The replacement joins the lines of t with `<br/>` and a line break. */
  lemma {:induction false} BreakLinesJoins(t: string)
    ensures BreakLines(t) == Join(Split(t, '\n'), "<br/>\n")
    decreases |t|
  {
    if |t| > 0 {
      BreakLinesJoins(t[1..]);
      var rest := Split(t[1..], '\n');
      if t[0] == '\n' {
        assert Split(t, '\n') == [""] + rest;
        JoinCons("", rest, "<br/>\n");
      } else {
        assert Split(t, '\n') == [[t[0]] + rest[0]] + rest[1..];
        JoinHead(t[0], rest, "<br/>\n");
      }
    }
  }

  lemma JoinCons(p: string, ps: seq<string>, sep: string)
    requires |ps| > 0
    ensures Join([p] + ps, sep) == p + sep + Join(ps, sep)
  {
    assert ([p] + ps)[1..] == ps;
  }

  lemma JoinHead(c: char, ps: seq<string>, sep: string)
    requires |ps| > 0
    ensures Join([[c] + ps[0]] + ps[1..], sep) == [c] + Join(ps, sep)
  {
    var qs := [[c] + ps[0]] + ps[1..];
    assert qs[1..] == ps[1..];
    if |ps| > 1 {
      assert Join(qs, sep) == [c] + ps[0] + sep + Join(ps[1..], sep);
    }
  }

  /** The replacement adds characters but never a `$`, so a block without `$` yields a replacement without one. */
  lemma {:induction false} BreakLinesDollar(t: string)
    ensures '$' in BreakLines(t) <==> '$' in t
    decreases |t|
  {
    if |t| > 0 {
      BreakLinesDollar(t[1..]);
      assert t == [t[0]] + t[1..];
    }
  }

  /** A block without line breaks is left as it is. */
  lemma {:induction false} BreakLinesKeeps(t: string)
    requires '\n' !in t
    ensures BreakLines(t) == t
    decreases |t|
  {
    if |t| > 0 {
      BreakLinesKeeps(t[1..]);
      assert t == [t[0]] + t[1..];
    }
  }

  /** The replacement texts: each matched block with its line breaks marked. */
  function BrokenBlocks(ts: seq<string>): (rs: seq<string>)
    decreases |ts|
    ensures |rs| == |ts|
    ensures forall k :: 0 <= k < |ts| ==> rs[k] == BreakLines(ts[k])
  {
    if |ts| == 0 then [] else [BreakLines(ts[0])] + BrokenBlocks(ts[1..])
  }

  /** The intended preprocessing from index i on: line breaks marked inside every block, the rest kept. */
  function Marked(s: string, i: nat): string
    decreases |s| - i
  {
    if i >= |s| then ""
    else match BlockEnd(s, i)
      case Some(j) => BreakLines(s[i..j]) + Marked(s, j)
      case None => [s[i]] + Marked(s, i + 1)
  }

  lemma MarkedNoBlock(s: string, i: nat)
    requires i < |s| && BlockEnd(s, i) == None
    ensures Marked(s, i) == [s[i]] + Marked(s, i + 1)
  {
    match BlockEnd(s, i)
    case None =>
  }

  lemma MarkedAtBlock(s: string, a: nat, b: nat)
    requires a < |s| && BlockEnd(s, a) == Some(b)
    ensures Marked(s, a) == BreakLines(s[a..b]) + Marked(s, b)
  {
    match BlockEnd(s, a)
    case Some(j) =>
      assert j == b;
  }

  /** Text in which no block starts is copied unchanged. */
  lemma {:induction false} GapMarked(s: string, i: nat, k: nat)
    requires i <= k <= |s|
    requires forall q :: i <= q < k ==> BlockEnd(s, q) == None
    ensures Marked(s, i) == s[i..k] + Marked(s, k)
    decreases k - i
  {
    if i < k {
      GapMarked(s, i + 1, k);
      MarkedNoBlock(s, i);
      assert s[i..k] == [s[i]] + s[i + 1..k];
      Nest(Marked(s, i), [s[i]], Marked(s, i + 1), s[i + 1..k], Marked(s, k));
    }
  }

  /** Text in which the expression finds no block is its own preprocessing. */
  lemma NoBlockMarked(s: string, i: nat)
    requires i <= |s| && NextBlock(s, i).None?
    ensures Marked(s, i) == s[i..]
  {
    forall q | i <= q < |s| ensures BlockEnd(s, q) == None {
      NextBlockIsLeftmost(s, i, q);
    }
    GapMarked(s, i, |s|);
  }

  lemma Nest(x: string, g: string, y: string, c: string, z: string)
    requires x == g + y && y == c + z
    ensures x == g + c + z
  {
  }

  /** The preprocessing from i: the text before the first block, the block marked, and the preprocessing after it. */
  lemma MarkedFirstBlock(s: string, i: nat, a: nat, b: nat)
    requires i <= |s| && NextBlock(s, i) == Some(Span(a, b))
    ensures Marked(s, i) == s[i..a] + BreakLines(s[a..b]) + Marked(s, b)
  {
    forall q | i <= q < a ensures BlockEnd(s, q) == None {
      NextBlockIsLeftmost(s, i, q);
    }
    GapMarked(s, i, a);
    NextBlockFinds(s, i, Span(a, b));
    MarkedAtBlock(s, a, b);
    Nest(Marked(s, i), s[i..a], Marked(s, a), BreakLines(s[a..b]), Marked(s, b));
  }

  /** The first block, its replacement, and the splice after it. */
  lemma SpliceCons(s: string, i: nat, a: nat, b: nat, ms: seq<Span>, ms': seq<Span>)
    requires i <= |s| && NextBlock(s, i) == Some(Span(a, b))
    requires ms == Blocks(s, i) && ms' == Blocks(s, b)
    ensures Simultaneous(s, ms, i, BrokenBlocks(Texts(s, ms, i)))
        == s[i..a] + BreakLines(s[a..b]) + Simultaneous(s, ms', b, BrokenBlocks(Texts(s, ms', b)))
  {
    var ts := Texts(s, ms, i);
    var rs := BrokenBlocks(ts);
    BlocksCons(s, i, a, b);
    TextsCons(s, ms, i);
    assert rs[0] == BreakLines(s[a..b]);
    assert rs[1..] == BrokenBlocks(Texts(s, ms', b));
    SimultaneousCons(s, ms, i, rs);
  }

  lemma SpliceStep(s: string, i: nat, a: nat, b: nat, ms: seq<Span>, ms': seq<Span>)
    requires i <= |s| && NextBlock(s, i) == Some(Span(a, b))
    requires ms == Blocks(s, i) && ms' == Blocks(s, b)
    requires Simultaneous(s, ms', b, BrokenBlocks(Texts(s, ms', b))) == Marked(s, b)
    ensures Simultaneous(s, ms, i, BrokenBlocks(Texts(s, ms, i))) == Marked(s, i)
  {
    MarkedFirstBlock(s, i, a, b);
    SpliceCons(s, i, a, b, ms, ms');
  }

  /** Replacing each matched block where it stands is the intended preprocessing. */
  lemma {:induction false} SpliceIsMarked(s: string, i: nat)
    requires i <= |s|
    ensures Simultaneous(s, Blocks(s, i), i, BrokenBlocks(Texts(s, Blocks(s, i), i))) == Marked(s, i)
    decreases |s| - i
  {
    match NextBlock(s, i)
    case None =>
      NoBlockMarked(s, i);
    case Some(Span(a, b)) =>
      SpliceIsMarked(s, b);
      SpliceStep(s, i, a, b, Blocks(s, i), Blocks(s, b));
  }

  /** `html.match(/<pre>[\s\S]*?<\/pre>/gi)`, with no matches for null. */
  function Pres(html: string): seq<string>
  {
    Texts(html, Blocks(html, 0), 0)
  }

  /** What the source's loop computes: each block, in turn, replaced where its text first occurs, `$` patterns read. */
  function MarkedAsWritten(html: string): string
  {
    var pres := Pres(html);
    SequentialPattern(html, pres, BrokenBlocks(pres))
  }

  /** `htmlToPlainText` as written: the replace loop, then the converter (an uninterpreted function here). */
  method HtmlToPlainTextAsWritten(html: JsText, h2p: string -> string) returns (text: string)
    ensures !Truthy(html) ==> text == ""
    ensures Truthy(html) ==> text == h2p(MarkedAsWritten(html.s))
    ensures text == PlainTextAsWritten(html, h2p)
  {
    text := "";
    if Truthy(html) {
      var s := html.s;
      var pres := Pres(s);
      var j := 0;
      while j < |pres|
        invariant j <= |pres|
        invariant SequentialPattern(s, pres[j..], BrokenBlocks(pres)[j..]) == MarkedAsWritten(html.s)
      {
        var r := BreakLines(pres[j]);
        assert BrokenBlocks(pres)[j..][0] == r;
        assert pres[j..][1..] == pres[j + 1..];
        assert BrokenBlocks(pres)[j..][1..] == BrokenBlocks(pres)[j + 1..];
        s := ReplaceFirstPattern(s, pres[j], r);
        j := j + 1;
      }
      text := h2p(s);
    }
  }

  /** What `htmlToPlainText` returns as written, as a function of its input. */
  function PlainTextAsWritten(html: JsText, h2p: string -> string): string
  {
    if Truthy(html) then h2p(MarkedAsWritten(html.s)) else ""
  }

  /** The two readings of `htmlToPlainText` agree when no block holds `$` and no block holds a nested `<`. */
  lemma PlainTextAgrees(html: JsText, h2p: string -> string)
    requires Truthy(html) ==> forall k :: 0 <= k < |Pres(html.s)| ==> '$' !in Pres(html.s)[k]
    requires Truthy(html) ==> forall k :: 0 <= k < |Blocks(html.s, 0)| ==> BlockApart(html.s, Blocks(html.s, 0)[k])
    ensures PlainTextAsWritten(html, h2p) == PlainText(html, h2p)
  {
    if Truthy(html) {
      AsWrittenIsMarked(html.s);
    }
  }

  /** What `htmlToPlainText` returns with the evident intent, as a function of its input. */
  function PlainText(html: JsText, h2p: string -> string): string
  {
    if Truthy(html) then h2p(Marked(html.s, 0)) else ""
  }

  /**
   * `htmlToPlainText` with the evident intent: each block replaced where it
   * was found, its text inserted literally.
   */
  method HtmlToPlainText(html: JsText, h2p: string -> string) returns (text: string)
    ensures !Truthy(html) ==> text == ""
    ensures Truthy(html) ==> text == h2p(Marked(html.s, 0))
    ensures text == PlainText(html, h2p)
  {
    text := "";
    if Truthy(html) {
      var s := html.s;
      var out := "";
      var lastIndex := 0;
      var m := NextBlock(s, lastIndex);
      while m.Some?
        invariant lastIndex <= |s|
        invariant m == NextBlock(s, lastIndex)
        invariant out + Marked(s, lastIndex) == Marked(s, 0)
        decreases |s| - lastIndex
      {
        var a, b := m.value.start, m.value.end;
        var piece := s[lastIndex..a] + BreakLines(s[a..b]);
        MarkAppend(s, lastIndex, a, b, out, piece);
        out := out + piece;
        lastIndex := b;
        m := NextBlock(s, lastIndex);
      }
      NoBlockMarked(s, lastIndex);
      text := h2p(out + s[lastIndex..]);
    }
  }

  /** One turn of the intended preprocessing: the gap before the block and the marked block are final. */
  lemma MarkAppend(s: string, i: nat, a: nat, b: nat, out: string, piece: string)
    requires i <= |s| && NextBlock(s, i) == Some(Span(a, b))
    requires piece == s[i..a] + BreakLines(s[a..b])
    ensures out + Marked(s, i) == (out + piece) + Marked(s, b)
  {
    MarkedFirstBlock(s, i, a, b);
  }

  /** Without any block the converter receives the documentation as it is. */
  lemma NoBlockUnchanged(html: string)
    requires NextBlock(html, 0).None?
    ensures Marked(html, 0) == html
  {
    NoBlockMarked(html, 0);
  }

  /**
   * The loop as written agrees with the intended preprocessing when no block
   * holds a `$` and each block, when its turn comes, is first found in its
   * own place.
   */
  lemma AsWrittenAgrees(html: string)
    requires forall k :: 0 <= k < |Pres(html)| ==> '$' !in Pres(html)[k]
    requires InPlace("", html, Blocks(html, 0), 0, BrokenBlocks(Pres(html)))
    ensures MarkedAsWritten(html) == Marked(html, 0)
  {
    var ms := Blocks(html, 0);
    var pres := Pres(html);
    PlainAgrees(html, ms, pres, BrokenBlocks(pres));
  }

  lemma PlainAgrees(html: string, ms: seq<Span>, pres: seq<string>, rs: seq<string>)
    requires ms == Blocks(html, 0) && pres == Texts(html, ms, 0) && rs == BrokenBlocks(pres)
    requires forall k :: 0 <= k < |pres| ==> '$' !in pres[k]
    requires InPlace("", html, ms, 0, rs)
    ensures SequentialPattern(html, pres, rs) == Marked(html, 0)
  {
    forall k | 0 <= k < |rs| ensures '$' !in rs[k] {
      BreakLinesDollar(pres[k]);
    }
    SequentialPatternPlain(html, pres, rs);
    assert "" + html[0..] == html;
    SequentialIsSplice("", html, ms, 0, rs);
    SpliceIsMarked(html, 0);
  }

  /** Block m of s holds no `<` between its tags. */
  predicate BlockApart(s: string, m: Span)
  {
    forall k :: m.start + 5 <= k < m.end - 6 && k < |s| ==> s[k] != '<'
  }

  /** t is a whole block with a line break and no `<` between its tags. */
  predicate PreShaped(t: string)
  {
    IsBlockAt(t, 0, |t|) && '\n' in t && forall k :: 5 <= k < |t| - 6 ==> t[k] != '<'
  }

  /** Only the first character of a tag is `<`, and none is a line break. */
  lemma TagChars(s: string, i: nat, w: string, k: nat)
    requires w == OpenTag || w == CloseTag
    requires TagAt(s, i, w) && k < |w|
    ensures s[i + k] == '<' <==> k == 0
    ensures s[i + k] != '\n'
    ensures k == 1 && w == OpenTag ==> s[i + k] == 'p' || s[i + k] == 'P'
    ensures k == 1 && w == CloseTag ==> s[i + k] == '/'
  {
    assert SameLetter(s[i + k], w[k]);
  }

  /** Such a block holds `<` only where its two tags start, and its line breaks lie between them. */
  lemma PreInterior(t: string, k: int)
    ensures PreShaped(t) ==> t[0] == '<' && (t[1] == 'p' || t[1] == 'P') && t[|t| - 5] == '/'
    ensures PreShaped(t) && 0 < k < |t| && k != |t| - 6 ==> t[k] != '<'
    ensures PreShaped(t) && 0 <= k < |t| && t[k] == '\n' ==> 5 <= k < |t| - 6
  {
    if PreShaped(t) {
      var c := |t| - 6;
      TagChars(t, 0, OpenTag, 0);
      TagChars(t, 0, OpenTag, 1);
      TagChars(t, c, CloseTag, 1);
      if 0 <= k < 5 {
        TagChars(t, 0, OpenTag, k);
      } else if c <= k < |t| {
        TagChars(t, c, CloseTag, k - c);
      }
    }
  }

  /** Such a block found in s is a block of s. */
  lemma PreIsBlock(s: string, q: nat, j: nat)
    requires q <= j <= |s|
    ensures PreShaped(s[q..j]) ==> IsBlockAt(s, q, j)
  {
    var t := s[q..j];
    if PreShaped(t) {
      TagAtSlice(s, q, j, 0, OpenTag);
      TagAtSlice(s, q, j, j - q - 6, CloseTag);
      forall k | q + 5 <= k < j - 6 ensures !TagAt(s, k, CloseTag) {
        assert s[k] == t[k - q];
        if TagAt(s, k, CloseTag) {
          TagChars(s, k, CloseTag, 0);
        }
      }
    }
  }

  /** A block of s with a line break and no `<` between its tags has that shape. */
  lemma BlockIsPre(s: string, a: nat, b: nat)
    requires IsBlockAt(s, a, b) && '\n' in s[a..b]
    requires forall k :: a + 5 <= k < b - 6 ==> s[k] != '<'
    ensures PreShaped(s[a..b])
  {
    var t := s[a..b];
    BlockSlice(s, a, b);
    forall k | 5 <= k < |t| - 6 ensures t[k] != '<' {
      assert t[k] == s[a + k];
    }
  }

  /** The replacement distributes over concatenation. */
  lemma {:induction false} BreakLinesAppend(x: string, y: string)
    ensures BreakLines(x + y) == BreakLines(x) + BreakLines(y)
    decreases |x|
  {
    if |x| > 0 {
      var h := if x[0] == '\n' then "<br/>\n" else [x[0]];
      assert (x + y)[0] == x[0] && (x + y)[1..] == x[1..] + y;
      assert BreakLines(x + y) == h + BreakLines(x[1..] + y);
      BreakLinesAppend(x[1..], y);
    } else {
      assert x + y == y;
    }
  }

  /** In the replacement every line break comes right after a `<br/>`. */
  lemma {:induction false} BreakLinesNewline(x: string, i: nat)
    requires i < |BreakLines(x)| && BreakLines(x)[i] == '\n'
    ensures i >= 5 && BreakLines(x)[i - 5] == '<' && BreakLines(x)[i - 4] == 'b'
    decreases |x|
  {
    var head := if x[0] == '\n' then "<br/>\n" else [x[0]];
    assert BreakLines(x) == head + BreakLines(x[1..]);
    if i >= |head| {
      BreakLinesNewline(x[1..], i - |head|);
    }
  }

  /** A marked block keeps its tags: it opens with `<` and a `p`, and ends with the closing tag. */
  lemma MarkedBlockTags(t: string)
    requires IsBlockAt(t, 0, |t|)
    ensures var r := BreakLines(t);
      |r| >= 11 && r[0] == '<' && (r[1] == 'p' || r[1] == 'P') && TagAt(r, |r| - 6, CloseTag)
  {
    var c := |t| - 6;
    var x, y, z := t[..5], t[5..c], t[c..];
    assert t == x + y + z;
    forall k | 0 <= k < |x| ensures x[k] != '\n' {
      TagChars(t, 0, OpenTag, k);
    }
    forall k | 0 <= k < |z| ensures z[k] != '\n' {
      TagChars(t, c, CloseTag, k);
    }
    BreakLinesKeeps(x);
    BreakLinesKeeps(z);
    BreakLinesAppend(x + y, z);
    BreakLinesAppend(x, y);
    var r := BreakLines(t);
    assert r == x + BreakLines(y) + z;
    TagChars(t, 0, OpenTag, 0);
    TagChars(t, 0, OpenTag, 1);
    forall k | 0 <= k < 6 ensures SameLetter(r[|r| - 6 + k], CloseTag[k]) {
      assert r[|r| - 6 + k] == z[k] == t[c + k];
    }
  }

  /** No such block lies inside done, which is empty or ends with a closing tag. */
  predicate CleanMarked(done: string)
  {
    (|done| == 0 || (|done| >= 6 && TagAt(done, |done| - 6, CloseTag))) &&
    forall p, e :: 0 <= p <= e <= |done| ==> !PreShaped(done[p..e])
  }

  /** Such a block cannot run from a text ending in a closing tag into what follows. */
  lemma PreAcross(w: string, n: nat, p: nat, e: nat)
    requires 6 <= n <= |w| && TagAt(w, n - 6, CloseTag)
    requires p < n < e <= |w|
    ensures !PreShaped(w[p..e])
  {
    var t := w[p..e];
    var c := n - 6;
    if p <= c {
      PreInterior(t, c - p);
      TagChars(w, c, CloseTag, 0);
      TagChars(w, c, CloseTag, 1);
      assert t[c - p] == w[c] && t[c - p + 1] == w[c + 1];
    } else {
      PreInterior(t, 0);
      TagChars(w, c, CloseTag, p - c);
      assert t[0] == w[p];
    }
  }

  /** No such block starts in the untouched text between from and the next block. */
  lemma NoPreInGap(s: string, from: nat, a: nat, b: nat, done: string, p: nat, e: nat)
    requires from <= |s| && NextBlock(s, from) == Some(Span(a, b))
    requires |done| <= p < |done| + (a - from) && p <= e <= |done| + (|s| - from)
    ensures !PreShaped((done + s[from..])[p..e])
  {
    var q := p - |done| + from;
    var j := q + (e - p);
    assert (done + s[from..])[p..e] == s[q..j];
    PreIsBlock(s, q, j);
    BlockEndIsBlock(s, q, j);
    NextBlockIsLeftmost(s, from, q);
  }

  /** A block found in place by the loop, when its turn comes. */
  lemma PreFoundInPlace(s: string, from: nat, a: nat, b: nat, done: string)
    requires from <= |s| && NextBlock(s, from) == Some(Span(a, b))
    requires CleanMarked(done)
    requires PreShaped(s[a..b])
    ensures IndexOf(done + s[from..], s[a..b]) == |done| + (a - from)
  {
    var w := done + s[from..];
    var t := s[a..b];
    var n := |done| + (a - from);
    OccursInPlace(done, s, from, a, b);
    forall j: nat | j < n ensures !OccursAt(w, t, j) {
      PreNotBefore(s, from, a, b, done, j);
    }
    IndexOfAt(w, t, n);
  }

  /** An earlier occurrence would be such a block inside done, across its end, or in the gap. */
  lemma PreNotBefore(s: string, from: nat, a: nat, b: nat, done: string, j: nat)
    requires from <= |s| && NextBlock(s, from) == Some(Span(a, b))
    requires CleanMarked(done)
    requires PreShaped(s[a..b])
    requires j < |done| + (a - from)
    ensures !OccursAt(done + s[from..], s[a..b], j)
  {
    var w := done + s[from..];
    var e := j + (b - a);
    if e <= |w| {
      assert OccursAt(w, s[a..b], j) ==> w[j..e] == s[a..b];
      if e <= |done| {
        PreInDone(done, s[from..], j, e);
      } else if j < |done| {
        PreAcrossDone(done, s[from..], j, e);
      } else {
        NoPreInGap(s, from, a, b, done, j, e);
      }
    }
  }

  lemma PreInDone(done: string, y: string, p: nat, e: nat)
    requires CleanMarked(done)
    requires p <= e <= |done|
    ensures !PreShaped((done + y)[p..e])
  {
    assert (done + y)[p..e] == done[p..e];
  }

  lemma PreAcrossDone(done: string, y: string, p: nat, e: nat)
    requires CleanMarked(done)
    requires p < |done| < e <= |done| + |y|
    ensures !PreShaped((done + y)[p..e])
  {
    TagAtPrefix(done, y, |done| - 6);
    PreAcross(done + y, |done|, p, e);
  }

  /** A closing tag in x is one in x followed by anything. */
  lemma TagAtPrefix(x: string, y: string, i: nat)
    requires TagAt(x, i, CloseTag)
    ensures TagAt(x + y, i, CloseTag)
  {
    forall k | 0 <= k < 6 ensures SameLetter((x + y)[i + k], CloseTag[k]) {
      assert (x + y)[i + k] == x[i + k];
    }
  }

  /** Such a block starting in the gap stays in it, so it would be a block the expression skipped. */
  lemma PreGap(s: string, from: nat, a: nat, b: nat, done: string, r: string, p: nat, e: nat)
    requires from <= |s| && NextBlock(s, from) == Some(Span(a, b))
    requires |r| >= 2 && r[0] == '<' && (r[1] == 'p' || r[1] == 'P') && a < |s| && s[a] == '<'
    requires |done| <= p < |done| + (a - from) && p <= e <= |done| + (a - from) + |r|
    ensures !PreShaped((done + s[from..a] + r)[p..e])
  {
    var w := done + s[from..a] + r;
    var n := |done| + (a - from);
    if e <= n + 1 {
      forall i | p <= i < e ensures w[i] == (done + s[from..])[i] {
        if i == n {
          assert (done + s[from..])[i] == s[a];
        }
      }
      assert w[p..e] == (done + s[from..])[p..e];
      NoPreInGap(s, from, a, b, done, p, e);
    } else {
      PreInterior(w[p..e], n - p);
      assert w[p..e][n - p] == r[0] && w[p..e][n - p + 1] == r[1];
    }
  }

  /** No such block lies inside a marked block: each of its line breaks would follow a `<br/>`. */
  lemma PreInside(done: string, g: string, x: string, p: nat, e: nat)
    requires |done| + |g| <= p <= e <= |done| + |g| + |BreakLines(x)|
    ensures !PreShaped((done + g + BreakLines(x))[p..e])
  {
    var r := BreakLines(x);
    var k := p - |done| - |g|;
    assert (done + g + r)[p..e] == r[k..k + (e - p)];
    PreNotBroken(x, k, k + (e - p));
  }

  /** No part of a text with its line breaks marked is a block holding a line break. */
  lemma PreNotBroken(x: string, k: nat, m: nat)
    requires k <= m <= |BreakLines(x)|
    ensures !PreShaped(BreakLines(x)[k..m])
  {
    var t := BreakLines(x)[k..m];
    if PreShaped(t) {
      var n :| 0 <= n < |t| && t[n] == '\n';
      PreInterior(t, n);
      BreakLinesNewline(x, k + n);
      PreInterior(t, n - 5);
      PreInterior(t, 0);
    }
  }

  /** Appending the gap and the next marked block keeps the text rewritten so far clean. */
  lemma CleanMarkedStep(s: string, from: nat, a: nat, b: nat, done: string)
    requires from <= |s| && NextBlock(s, from) == Some(Span(a, b))
    requires CleanMarked(done)
    ensures CleanMarked(done + s[from..a] + BreakLines(s[a..b]))
  {
    var t := s[a..b];
    var r := BreakLines(t);
    var g := s[from..a];
    var w := done + g + r;
    NextBlockSlice(s, from, a, b);
    MarkedBlockTags(t);
    NoPreIn(s, from, a, b, done);
    CleanMarkedJoin(done + g, r);
  }

  lemma CleanMarkedJoin(x: string, r: string)
    requires |r| >= 6 && TagAt(r, |r| - 6, CloseTag)
    requires forall p, e :: 0 <= p <= e <= |x + r| ==> !PreShaped((x + r)[p..e])
    ensures CleanMarked(x + r)
  {
    TagAtEnd(x, r);
  }

  lemma NoPreIn(s: string, from: nat, a: nat, b: nat, done: string)
    requires from <= |s| && NextBlock(s, from) == Some(Span(a, b))
    requires CleanMarked(done)
    requires IsBlockAt(s[a..b], 0, b - a) && a < |s| && s[a] == '<'
    ensures var w := done + s[from..a] + BreakLines(s[a..b]);
      forall p, e :: 0 <= p <= e <= |w| ==> !PreShaped(w[p..e])
  {
    var w := done + s[from..a] + BreakLines(s[a..b]);
    forall p, e | 0 <= p <= e <= |w| ensures !PreShaped(w[p..e]) {
      NoPreAt(s, from, a, b, done, p, e);
    }
  }

  /** A text ending in a closing tag still does so after anything is put before it. */
  lemma TagAtEnd(x: string, r: string)
    requires |r| >= 6 && TagAt(r, |r| - 6, CloseTag)
    ensures TagAt(x + r, |x + r| - 6, CloseTag)
  {
    forall k | 0 <= k < 6 ensures SameLetter((x + r)[|x| + |r| - 6 + k], CloseTag[k]) {
      assert (x + r)[|x| + |r| - 6 + k] == r[|r| - 6 + k];
    }
  }

  /** No such block lies anywhere in done, the gap, and the marked block after it. */
  lemma NoPreAt(s: string, from: nat, a: nat, b: nat, done: string, p: nat, e: nat)
    requires from <= |s| && NextBlock(s, from) == Some(Span(a, b))
    requires CleanMarked(done)
    requires IsBlockAt(s[a..b], 0, b - a) && a < |s| && s[a] == '<'
    requires p <= e <= |done| + (a - from) + |BreakLines(s[a..b])|
    ensures !PreShaped((done + s[from..a] + BreakLines(s[a..b]))[p..e])
  {
    var t := s[a..b];
    var r := BreakLines(t);
    var g := s[from..a];
    var w := done + g + r;
    if p < |done| {
      PreFromDone(done, g, r, p, e);
    } else if p < |done| + |g| {
      MarkedBlockTags(t);
      PreGap(s, from, a, b, done, r, p, e);
    } else {
      PreInside(done, g, t, p, e);
    }
  }

  /** No block holding a line break starts inside a clean text, whatever follows it. */
  lemma PreFromDone(done: string, g: string, r: string, p: nat, e: nat)
    requires CleanMarked(done)
    requires p < |done| && p <= e <= |done| + |g| + |r|
    ensures !PreShaped((done + g + r)[p..e])
  {
    var y := g + r;
    assert done + g + r == done + y;
    if e <= |done| {
      PreInDone(done, y, p, e);
    } else {
      PreAcrossDone(done, y, p, e);
    }
  }

  /** The block the expression finds, taken out of s, is a block on its own. */
  lemma NextBlockSlice(s: string, from: nat, a: nat, b: nat)
    requires from <= |s| && NextBlock(s, from) == Some(Span(a, b))
    ensures a < |s| && s[a] == '<' && IsBlockAt(s[a..b], 0, b - a)
  {
    NextBlockFinds(s, from, Span(a, b));
    BlockEndIsBlock(s, a, b);
    TagChars(s, a, OpenTag, 0);
    BlockSlice(s, a, b);
  }

  /** A block of s, taken out of s, is a block on its own. */
  lemma BlockSlice(s: string, a: nat, b: nat)
    requires IsBlockAt(s, a, b)
    ensures IsBlockAt(s[a..b], 0, b - a)
  {
    TagAtSlice(s, a, b, 0, OpenTag);
    TagAtSlice(s, a, b, b - a - 6, CloseTag);
    forall k | 5 <= k < b - a - 6 ensures !TagAt(s[a..b], k, CloseTag) {
      TagAtSlice(s, a, b, k, CloseTag);
    }
  }

  /** A tag inside s[a..b] is one of s. */
  lemma TagAtSlice(s: string, a: nat, b: nat, i: nat, w: string)
    requires a <= b <= |s| && i + |w| <= b - a
    ensures TagAt(s[a..b], i, w) <==> TagAt(s, a + i, w)
  {
    var t := s[a..b];
    if TagAt(t, i, w) {
      forall k | 0 <= k < |w| ensures SameLetter(s[a + i + k], w[k]) {
        assert t[i + k] == s[a + i + k];
      }
    }
    if TagAt(s, a + i, w) {
      forall k | 0 <= k < |w| ensures SameLetter(t[i + k], w[k]) {
        assert t[i + k] == s[a + i + k];
      }
    }
  }

  /** From index from on, with done clean, every block with a line break is found in its own place. */
  lemma {:induction false} BlocksInPlace(s: string, from: nat, done: string)
    requires from <= |s| && CleanMarked(done)
    requires forall k :: 0 <= k < |Blocks(s, from)| ==> BlockApart(s, Blocks(s, from)[k])
    ensures InPlace(done, s, Blocks(s, from), from, BrokenBlocks(Texts(s, Blocks(s, from), from)))
    decreases |s| - from
  {
    match NextBlock(s, from)
    case None =>
    case Some(m) =>
      var a, b := m.start, m.end;
      var ms := Blocks(s, from);
      BlocksCons(s, from, a, b);
      TextsCons(s, ms, from);
      var ts := Texts(s, ms, from);
      var rs := BrokenBlocks(ts);
      assert rs[1..] == BrokenBlocks(ts[1..]) by {
        BrokenBlocksTail(ts);
      }
      var t := s[a..b];
      assert Apart: BlockApart(s, ms[0]);
      if '\n' in t {
        NextBlockFinds(s, from, Span(a, b));
        BlockEndIsBlock(s, a, b);
        BlockIsPre(s, a, b);
        PreFoundInPlace(s, from, a, b, done);
      } else {
        BreakLinesKeeps(t);
      }
      CleanMarkedStep(s, from, a, b, done);
      assert forall k :: 0 <= k < |ms[1..]| ==> BlockApart(s, ms[1..][k]) by {
        forall k | 0 <= k < |ms[1..]| ensures BlockApart(s, ms[1..][k]) {
          assert ms[1..][k] == ms[k + 1];
        }
      }
      BlocksInPlace(s, b, done + s[from..a] + rs[0]);
  }

  lemma BrokenBlocksTail(ts: seq<string>)
    requires |ts| > 0
    ensures BrokenBlocks(ts)[1..] == BrokenBlocks(ts[1..])
  {
    var rest := BrokenBlocks(ts[1..]);
    assert ([BreakLines(ts[0])] + rest)[1..] == rest;
  }

  /**
   * The loop as written is the intended preprocessing when no block holds
   * a `$` or, between its tags, a `<`: all of InPlace follows.
   */
  lemma AsWrittenIsMarked(html: string)
    requires forall k :: 0 <= k < |Pres(html)| ==> '$' !in Pres(html)[k]
    requires forall k :: 0 <= k < |Blocks(html, 0)| ==> BlockApart(html, Blocks(html, 0)[k])
    ensures MarkedAsWritten(html) == Marked(html, 0)
  {
    BlocksInPlace(html, 0, "");
    AsWrittenAgrees(html);
  }

  /** The sample block is the one block the expression finds. */
  lemma DollarBlockPres(s: string)
    requires s == "<pre>$$</pre>"
    ensures Blocks(s, 0) == [Span(0, 13)]
    ensures Pres(s) == [s]
    ensures s == OpenTag + "$$" + CloseTag
  {
    assert TagAt(s, 0, OpenTag);
    assert !TagAt(s, 5, CloseTag) by { assert !SameLetter(s[5], CloseTag[0]); }
    assert !TagAt(s, 6, CloseTag) by { assert !SameLetter(s[6], CloseTag[0]); }
    assert TagAt(s, 7, CloseTag);
    assert CloseFrom(s, 7) == Some(7);
    assert CloseFrom(s, 6) == Some(7);
    assert CloseFrom(s, 5) == Some(7);
    assert BlockEnd(s, 0) == Some(13);
    assert NextBlock(s, 0) == Some(Span(0, 13));
    assert Blocks(s, 13) == [];
    assert s[0..13] == s;
    assert s == OpenTag + "$$" + CloseTag;
  }

  /** A text that is one block without line breaks is, as written, its own text with `$` patterns read. */
  lemma SingleBlockAsWritten(s: string)
    requires Pres(s) == [s] && '\n' !in s
    ensures MarkedAsWritten(s) == Substitution(s, s, "", "")
  {
    BreakLinesKeeps(s);
    assert BrokenBlocks([s]) == [s];
    assert OccursAt(s, s, 0);
    IndexOfFirst(s, s);
    assert s[..0] == "" && s[|s|..] == "";
    assert SequentialPattern(s, [s], [s]) == ReplaceFirstPattern(s, s, s);
  }

  /** A text that is one block, from start to end, is intended to become that block with its line breaks marked. */
  lemma SingleBlockMarked(s: string)
    requires Blocks(s, 0) == [Span(0, |s|)]
    ensures Marked(s, 0) == BreakLines(s)
  {
    assert NextBlock(s, 0) == Some(Span(0, |s|));
    MarkedFirstBlock(s, 0, 0, |s|);
    assert s[0..|s|] == s;
  }

  /**
   * A `<pre>` block holding `$$` (Ruby's process-id global) loses a `$` in
   * the loop as written, because `replace` reads `$$` in the replacement
   * as one `$`; the intended preprocessing keeps it.
   */
  lemma DollarBlockCounterexample(s: string)
    requires s == "<pre>$$</pre>"
    ensures MarkedAsWritten(s) == OpenTag + "$" + CloseTag
    ensures Marked(s, 0) == s
  {
    DollarBlockPres(s);
    SingleBlockAsWritten(s);
    DollarPairHalved(OpenTag, CloseTag, s);
    SingleBlockMarked(s);
    BreakLinesKeeps(s);
  }
}
