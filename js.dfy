/**
 * The JavaScript built-ins that the extension's string handling relies on,
 * stated over Dafny strings: indexOf, replace with a string pattern,
 * split on one character, join, substring, substr and parseInt, plus the
 * loosely typed values (undefined, null, NaN) that leak into the results.
 */
module Js {

  datatype Option<T> = None | Some(value: T)

  /** A text-valued JavaScript field: a string, or `undefined`, or `null`. */
  datatype JsText = Text(s: string) | Undefined | Null

  /** `String(v)`, as used when a value is concatenated to a string. */
  function ToStr(v: JsText): string
  {
    match v
    case Text(s) => s
    case Undefined => "undefined"
    case Null => "null"
  }

  /** JavaScript truthiness of a text value: only a non-empty string is truthy. */
  predicate Truthy(v: JsText)
  {
    v.Text? && v.s != ""
  }

  /** A number produced by `parseInt`: an integer or NaN. */
  datatype Number = Int(n: int) | NaN

  /** JavaScript truthiness of a number: 0 and NaN are falsy. */
  predicate NumberTruthy(x: Number)
  {
    x.Int? && x.n != 0
  }

  /** The characters that end a line for the `.` of a regular expression. */
  predicate IsLineTerminator(c: char)
  {
    c == '\n' || c == '\r' || c == '\U{2028}' || c == '\U{2029}'
  }

  predicate IsDigit(c: char)
  {
    '0' <= c <= '9'
  }

  predicate AllDigits(s: string)
  {
    forall i :: 0 <= i < |s| ==> IsDigit(s[i])
  }

  predicate NoLineTerminator(s: string)
  {
    forall i :: 0 <= i < |s| ==> !IsLineTerminator(s[i])
  }

  /** `p` occurs in `s` starting at index `k`. */
  predicate OccursAt(s: string, p: string, k: nat)
  {
    k + |p| <= |s| && s[k..k + |p|] == p
  }

  /** The first occurrence of `p` in `s` starts at index `k`. */
  predicate FirstAt(s: string, p: string, k: nat)
  {
    OccursAt(s, p, k) && forall j: nat :: j < k ==> !OccursAt(s, p, j)
  }

  predicate StartsWith(s: string, p: string)
  {
    |p| <= |s| && s[..|p|] == p
  }

  /** The first index at or after `from` where `p` occurs in `s`, or -1. */
  function IndexFrom(s: string, p: string, from: nat): (r: int)
    decreases |s| - from
    ensures r == -1 || (from <= r && r + |p| <= |s|)
  {
    if from + |p| > |s| then -1
    else if s[from..from + |p|] == p then from
    else IndexFrom(s, p, from + 1)
  }

  /** IndexFrom finds the first occurrence at or after `from`, or reports that there is none. */
  lemma {:induction false} IndexFromSpec(s: string, p: string, from: nat)
    decreases |s| - from
    ensures var r := IndexFrom(s, p, from);
      (r == -1 || (from <= r && OccursAt(s, p, r))) &&
      forall k: nat :: from <= k && (r == -1 || k < r) ==> !OccursAt(s, p, k)
  {
    if from + |p| <= |s| && s[from..from + |p|] != p {
      IndexFromSpec(s, p, from + 1);
    }
  }

  /** `s.indexOf(p)`. */
  function IndexOf(s: string, p: string): int
  {
    IndexFrom(s, p, 0)
  }

  /** IndexOf finds exactly the first occurrence, and -1 when there is none. */
  lemma IndexOfFirst(s: string, p: string)
    ensures forall k: nat :: FirstAt(s, p, k) <==> IndexOf(s, p) == k
    ensures IndexOf(s, p) == -1 <==> forall k: nat :: !OccursAt(s, p, k)
  {
    IndexFromSpec(s, p, 0);
  }

  /** An occurrence with none before it is the one IndexOf finds. */
  lemma IndexOfAt(s: string, p: string, k: nat)
    requires OccursAt(s, p, k)
    requires forall j: nat :: j < k ==> !OccursAt(s, p, j)
    ensures IndexOf(s, p) == k
  {
    IndexOfFirst(s, p);
    assert FirstAt(s, p, k);
  }

  /**
   * `s.replace(p, r)` with a string pattern, taking the replacement
   * literally: only the first occurrence of `p` is replaced.
   */
  function ReplaceFirst(s: string, p: string, r: string): string
  {
    var i := IndexOf(s, p);
    if i < 0 then s else s[..i] + r + s[i + |p|..]
  }

  /** ReplaceFirst leaves a text without `p` alone and otherwise replaces exactly the first occurrence. */
  lemma ReplaceFirstSpec(s: string, p: string, r: string)
    ensures (forall k: nat :: !OccursAt(s, p, k)) ==> ReplaceFirst(s, p, r) == s
    ensures forall k: nat :: FirstAt(s, p, k) ==> ReplaceFirst(s, p, r) == s[..k] + r + s[k + |p|..]
  {
    IndexOfFirst(s, p);
  }

  /** Replacing the first `c` of a text whose prefix `a` holds none replaces the `c` right after `a`. */
  lemma ReplaceFirstChar(a: string, c: char, b: string, r: string)
    requires c !in a
    ensures ReplaceFirst(a + [c] + b, [c], r) == a + r + b
  {
    var s := a + [c] + b;
    assert OccursAt(s, [c], |a|) by { assert s[|a|..|a| + 1] == [c]; }
    forall j: nat | j < |a| ensures !OccursAt(s, [c], j) {
      assert s[j] == a[j];
    }
    ReplaceFirstSpec(s, [c], r);
    assert s[..|a|] == a && s[|a| + 1..] == b;
  }

  /** A text without `c` is left alone. */
  lemma ReplaceAbsentChar(s: string, c: char, r: string)
    requires c !in s
    ensures ReplaceFirst(s, [c], r) == s
  {
    forall k: nat ensures !OccursAt(s, [c], k) {
      if k < |s| {
        assert s[k..k + 1] == [s[k]];
      }
    }
    ReplaceFirstSpec(s, [c], r);
  }

  /**
   * The replacement text that `String.prototype.replace` with a string
   * pattern inserts for the match `m`, preceded by `before` and followed by
   * `after`: `$$` gives `$`, `$&` the match, `` $` `` the text before and
   * `$'` the text after; every other character, including any other `$`,
   * is copied.
   */
  function Substitution(r: string, m: string, before: string, after: string): string
    decreases |r|
  {
    if |r| == 0 then ""
    else if |r| >= 2 && r[0] == '$' && r[1] == '$' then "$" + Substitution(r[2..], m, before, after)
    else if |r| >= 2 && r[0] == '$' && r[1] == '&' then m + Substitution(r[2..], m, before, after)
    else if |r| >= 2 && r[0] == '$' && r[1] == '`' then before + Substitution(r[2..], m, before, after)
    else if |r| >= 2 && r[0] == '$' && r[1] == '\'' then after + Substitution(r[2..], m, before, after)
    else [r[0]] + Substitution(r[1..], m, before, after)
  }

  /** A replacement without `$` is inserted as it is. */
  lemma {:induction false} SubstitutionPlain(r: string, m: string, before: string, after: string)
    requires '$' !in r
    ensures Substitution(r, m, before, after) == r
  {
    if |r| > 0 {
      assert r[0] != '$';
      SubstitutionPlain(r[1..], m, before, after);
      assert r == [r[0]] + r[1..];
    }
  }

  /** A prefix without `$` is copied by the substitution. */
  lemma {:induction false} SubstitutionPlainPrefix(p: string, r: string, m: string)
    requires '$' !in p
    ensures Substitution(p + r, m, "", "") == p + Substitution(r, m, "", "")
    decreases |p|
  {
    if |p| > 0 {
      assert p[0] in p;
      assert (p + r)[0] == p[0] && (p + r)[1..] == p[1..] + r;
      assert Substitution(p + r, m, "", "") == [p[0]] + Substitution(p[1..] + r, m, "", "");
      SubstitutionPlainPrefix(p[1..], r, m);
      assert p == [p[0]] + p[1..];
    } else {
      assert p + r == r;
    }
  }

  /** `replace` turns a `$$` between two texts without `$` into one `$`. */
  lemma DollarPairHalved(p: string, q: string, m: string)
    requires '$' !in p && '$' !in q
    ensures Substitution(p + "$$" + q, m, "", "") == p + "$" + q
  {
    var tail := "$$" + q;
    assert p + "$$" + q == p + tail;
    SubstitutionPlain(q, m, "", "");
    assert tail[0] == '$' && tail[1] == '$' && tail[2..] == q;
    assert Substitution(tail, m, "", "") == "$" + q;
    SubstitutionPlainPrefix(p, tail, m);
  }

  /** `s.replace(p, r)` with a string pattern, as JavaScript evaluates it. */
  function ReplaceFirstPattern(s: string, p: string, r: string): string
  {
    var i := IndexOf(s, p);
    if i < 0 then s else s[..i] + Substitution(r, p, s[..i], s[i + |p|..]) + s[i + |p|..]
  }

  /** Both readings of `replace` agree when the replacement holds no `$`. */
  lemma ReplacePlain(s: string, p: string, r: string)
    requires '$' !in r
    ensures ReplaceFirstPattern(s, p, r) == ReplaceFirst(s, p, r)
  {
    var i := IndexOf(s, p);
    if i >= 0 {
      var before, after := s[..i], s[i + |p|..];
      SubstitutionPlain(r, p, before, after);
      assert ReplaceFirstPattern(s, p, r) == before + Substitution(r, p, before, after) + after;
    }
  }

  /** `parts.join(sep)`. */
  function Join(parts: seq<string>, sep: string): string
    decreases |parts|
  {
    if |parts| == 0 then ""
    else if |parts| == 1 then parts[0]
    else parts[0] + sep + Join(parts[1..], sep)
  }

  /** `parts[i]` on a JavaScript array of strings: the element, or `undefined` past the end. */
  function At(parts: seq<string>, i: nat): JsText
  {
    if i < |parts| then Text(parts[i]) else Undefined
  }

  /** `s.split(sep)` for a one-character separator. */
  function Split(s: string, sep: char): (parts: seq<string>)
    decreases |s|
    ensures |parts| >= 1
    ensures forall i :: 0 <= i < |parts| ==> sep !in parts[i]
    ensures Join(parts, [sep]) == s
  {
    if |s| == 0 then [""]
    else
      var rest := Split(s[1..], sep);
      if s[0] == sep then
        assert Join([""] + rest, [sep]) == [sep] + Join(rest, [sep]) by {
          assert ([""] + rest)[1..] == rest;
        }
        [""] + rest
      else
        var parts := [[s[0]] + rest[0]] + rest[1..];
        assert Join(parts, [sep]) == [s[0]] + Join(rest, [sep]) by {
          if |rest| > 1 {
            assert parts[1..] == rest[1..];
          }
        }
        parts
  }

  /** Splitting a join of separator-free parts gives the parts back. */
  lemma {:induction false} SplitJoin(parts: seq<string>, sep: char)
    requires |parts| >= 1
    requires forall i :: 0 <= i < |parts| ==> sep !in parts[i]
    ensures Split(Join(parts, [sep]), sep) == parts
    decreases |parts|, |parts[0]|
  {
    var s := Join(parts, [sep]);
    if |parts[0]| == 0 {
      if |parts| == 1 {
      } else {
        assert s == [sep] + Join(parts[1..], [sep]);
        assert s[1..] == Join(parts[1..], [sep]);
        SplitJoin(parts[1..], sep);
        assert parts == [""] + parts[1..];
      }
    } else {
      var c := parts[0][0];
      var shorter := [parts[0][1..]] + parts[1..];
      assert c != sep by { assert c == parts[0][0]; }
      forall i | 0 <= i < |shorter| ensures sep !in shorter[i] {
        if i == 0 {
          assert forall j :: 0 <= j < |parts[0][1..]| ==> parts[0][1..][j] == parts[0][j + 1];
        } else {
          assert shorter[i] == parts[i];
        }
      }
      if |parts| == 1 {
        assert s == parts[0];
        assert Join(shorter, [sep]) == parts[0][1..];
      } else {
        assert s == parts[0] + [sep] + Join(parts[1..], [sep]);
        assert shorter[1..] == parts[1..];
        assert Join(shorter, [sep]) == parts[0][1..] + [sep] + Join(parts[1..], [sep]);
      }
      assert s == [c] + Join(shorter, [sep]);
      assert s[1..] == Join(shorter, [sep]);
      SplitJoin(shorter, sep);
      assert parts[0] == [c] + parts[0][1..];
      assert parts == [[c] + shorter[0]] + shorter[1..];
    }
  }

  /** `s.substring(a, b)` for non-negative bounds: clamped, and swapped when out of order. */
  function Substring(s: string, a: nat, b: nat): string
  {
    var lo := if a <= b then a else b;
    var hi := if a <= b then b else a;
    var lo' := if lo <= |s| then lo else |s|;
    var hi' := if hi <= |s| then hi else |s|;
    s[lo'..hi']
  }

  /** `s.substr(start, length)`: a negative start counts back from the end. */
  function Substr(s: string, start: int, length: nat): string
  {
    var st := if start >= 0 then start else if |s| + start >= 0 then |s| + start else 0;
    var en := if st + length <= |s| then st + length else |s|;
    if st >= en then "" else s[st..en]
  }

  /** The value of a string of decimal digits. */
  function DecimalValue(d: string): nat
    requires AllDigits(d)
    decreases |d|
  {
    if |d| == 0 then 0
    else DecimalValue(d[..|d| - 1]) * 10 + (d[|d| - 1] as int - '0' as int)
  }

  /** `parseInt(d)` for a string of decimal digits: NaN for the empty string. */
  function ParseInt(d: string): (x: Number)
    requires AllDigits(d)
    ensures x.NaN? <==> d == ""
  {
    if d == "" then NaN else Int(DecimalValue(d))
  }

  /** The longest run of decimal digits in `s` starting at `k`: what `[0-9]*` matches there. */
  function DigitRun(s: string, k: nat): (d: string)
    requires k <= |s|
    decreases |s| - k
    ensures AllDigits(d) && k + |d| <= |s| && d == s[k..k + |d|]
    ensures k + |d| == |s| || !IsDigit(s[k + |d|])
  {
    if k < |s| && IsDigit(s[k]) then [s[k]] + DigitRun(s, k + 1) else ""
  }
}
