/**
 * Three of the extension's transforms (the two link rewriters and the
 * `<pre>` preprocessing) share one shape: a global regular expression
 * collects the matches of the original text, and a loop then replaces, for
 * each match in turn, the FIRST occurrence of the matched text in the text
 * rewritten so far. This module relates that sequential replacement to the
 * simultaneous one, in which every match is replaced where it was found.
 */
module Splice {
  import opened Js

  /** The match occupying s[start..end]. */
  datatype Span = Span(start: nat, end: nat)

  /** The spans lie in order, without overlapping, inside s[from..]. */
  predicate Ordered(s: string, ms: seq<Span>, from: nat)
    decreases |ms|
  {
    from <= |s| &&
    (|ms| > 0 ==> from <= ms[0].start <= ms[0].end <= |s| && Ordered(s, ms[1..], ms[0].end))
  }

  /** The matched texts, in order: the array that `String.match` or `regexp.exec` yields. */
  function Texts(s: string, ms: seq<Span>, from: nat): (ts: seq<string>)
    requires Ordered(s, ms, from)
    decreases |ms|
    ensures |ts| == |ms|
  {
    if |ms| == 0 then [] else [s[ms[0].start..ms[0].end]] + Texts(s, ms[1..], ms[0].end)
  }

  /** s[from..] with every span replaced, where it stands, by the replacement of the same rank. */
  function Simultaneous(s: string, ms: seq<Span>, from: nat, rs: seq<string>): string
    requires Ordered(s, ms, from) && |rs| == |ms|
    decreases |ms|
  {
    if |ms| == 0 then s[from..]
    else s[from..ms[0].start] + rs[0] + Simultaneous(s, ms[1..], ms[0].end, rs[1..])
  }

  /** The first span replaced, and the rest. */
  lemma SimultaneousCons(s: string, ms: seq<Span>, from: nat, rs: seq<string>)
    requires Ordered(s, ms, from) && |rs| == |ms| > 0
    ensures Simultaneous(s, ms, from, rs)
      == s[from..ms[0].start] + rs[0] + Simultaneous(s, ms[1..], ms[0].end, rs[1..])
  {
  }

  /** The loops of the source: replace the first occurrence of each pattern in turn, literally. */
  function Sequential(a: string, pats: seq<string>, rs: seq<string>): string
    requires |rs| == |pats|
    decreases |pats|
  {
    if |pats| == 0 then a else Sequential(ReplaceFirst(a, pats[0], rs[0]), pats[1..], rs[1..])
  }

  /** The same loop with JavaScript's reading of `$` patterns in each replacement. */
  function SequentialPattern(a: string, pats: seq<string>, rs: seq<string>): string
    requires |rs| == |pats|
    decreases |pats|
  {
    if |pats| == 0 then a else SequentialPattern(ReplaceFirstPattern(a, pats[0], rs[0]), pats[1..], rs[1..])
  }

  /** One turn of the loop. */
  lemma SequentialCons(a: string, pats: seq<string>, rs: seq<string>)
    requires |rs| == |pats| > 0
    ensures Sequential(a, pats, rs) == Sequential(ReplaceFirst(a, pats[0], rs[0]), pats[1..], rs[1..])
  {
  }

  /** One turn of the loop, `$` patterns read. */
  lemma SequentialPatternCons(a: string, pats: seq<string>, rs: seq<string>)
    requires |rs| == |pats| > 0
    ensures SequentialPattern(a, pats, rs)
      == SequentialPattern(ReplaceFirstPattern(a, pats[0], rs[0]), pats[1..], rs[1..])
  {
  }

  /** The two loops agree when no replacement they insert holds a `$`. */
  lemma {:induction false} SequentialPatternPlain(a: string, pats: seq<string>, rs: seq<string>)
    requires |rs| == |pats|
    requires forall i :: 0 <= i < |rs| ==> '$' !in rs[i]
    ensures SequentialPattern(a, pats, rs) == Sequential(a, pats, rs)
    decreases |pats|
  {
    if |pats| > 0 {
      ReplacePlain(a, pats[0], rs[0]);
      assert forall i :: 0 <= i < |rs[1..]| ==> rs[1..][i] == rs[i + 1];
      SequentialPatternPlain(ReplaceFirst(a, pats[0], rs[0]), pats[1..], rs[1..]);
    }
  }

  /**
   * When its turn comes, each match either leaves its text unchanged or is
   * first found at its own place in the text rewritten so far (`done`
   * followed by the untouched rest s[from..]).
   */
  predicate InPlace(done: string, s: string, ms: seq<Span>, from: nat, rs: seq<string>)
    requires Ordered(s, ms, from) && |rs| == |ms|
    decreases |ms|
  {
    |ms| > 0 ==>
      var t := s[ms[0].start..ms[0].end];
      (rs[0] == t || IndexOf(done + s[from..], t) == |done| + (ms[0].start - from)) &&
      InPlace(done + s[from..ms[0].start] + rs[0], s, ms[1..], ms[0].end, rs[1..])
  }

  /** Replacing a text by itself changes nothing, wherever it is found. */
  lemma ReplaceBySelf(a: string, t: string)
    ensures ReplaceFirst(a, t, t) == a
  {
    var i := IndexOf(a, t);
    IndexFromSpec(a, t, 0);
    if i >= 0 {
      assert a == a[..i] + a[i..i + |t|] + a[i + |t|..];
    }
  }

  /** One step of the loop: the text at its own place, or left unchanged. */
  lemma ReplaceStep(x: string, t: string, y: string, r: string)
    requires r == t || IndexOf(x + t + y, t) == |x|
    ensures ReplaceFirst(x + t + y, t, r) == x + r + y
  {
    var a := x + t + y;
    if r == t {
      ReplaceBySelf(a, t);
    } else {
      assert a[..|x|] == x;
      assert a[|x| + |t|..] == y;
    }
  }

  /** The text before a span, the span, and the text after it make up s[from..]. */
  lemma Decompose(done: string, s: string, from: nat, a: nat, b: nat)
    requires from <= a <= b <= |s|
    ensures done + s[from..] == (done + s[from..a]) + s[a..b] + s[b..]
  {
    assert s[from..] == s[from..a] + s[a..];
    assert s[a..] == s[a..b] + s[b..];
  }

  /** The text of a span occurs, in done followed by s[from..], at the span's own place. */
  lemma OccursInPlace(done: string, s: string, from: nat, a: nat, b: nat)
    requires from <= a <= b <= |s|
    ensures OccursAt(done + s[from..], s[a..b], |done| + (a - from))
  {
    Decompose(done, s, from, a, b);
    var x := done + s[from..a];
    var t := s[a..b];
    assert (x + t + s[b..])[|x|..|x| + |t|] == t;
  }

  lemma Associate(a: string, b: string, c: string, d: string)
    ensures a + (b + c + d) == a + b + c + d
  {
  }

  /** The first match, and the others after it. */
  lemma TextsCons(s: string, ms: seq<Span>, from: nat)
    requires Ordered(s, ms, from) && |ms| > 0
    ensures Texts(s, ms, from)[0] == s[ms[0].start..ms[0].end]
    ensures Texts(s, ms, from)[1..] == Texts(s, ms[1..], ms[0].end)
  {
    var rest := Texts(s, ms[1..], ms[0].end);
    assert Texts(s, ms, from) == [s[ms[0].start..ms[0].end]] + rest;
    assert ([s[ms[0].start..ms[0].end]] + rest)[1..] == rest;
  }

  /** Under InPlace, the sequential loop computes the simultaneous replacement. */
  lemma {:induction false} SequentialIsSplice(done: string, s: string, ms: seq<Span>, from: nat, rs: seq<string>)
    requires Ordered(s, ms, from) && |rs| == |ms|
    requires InPlace(done, s, ms, from, rs)
    ensures Sequential(done + s[from..], Texts(s, ms, from), rs) == done + Simultaneous(s, ms, from, rs)
    decreases |ms|
  {
    if |ms| > 0 {
      var m := ms[0];
      var t := s[m.start..m.end];
      var x := done + s[from..m.start];
      Decompose(done, s, from, m.start, m.end);
      ReplaceStep(x, t, s[m.end..], rs[0]);
      TextsCons(s, ms, from);
      SequentialIsSplice(x + rs[0], s, ms[1..], m.end, rs[1..]);
      var ts := Texts(s, ms, from);
      assert Sequential(done + s[from..], ts, rs)
          == Sequential(ReplaceFirst(done + s[from..], t, rs[0]), ts[1..], rs[1..]);
      assert Simultaneous(s, ms, from, rs) == s[from..m.start] + rs[0] + Simultaneous(s, ms[1..], m.end, rs[1..]);
      Associate(done, s[from..m.start], rs[0], Simultaneous(s, ms[1..], m.end, rs[1..]));
    }
  }
}
