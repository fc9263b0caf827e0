/**
 * How the extension reads a `key=value` part of a query string: the part is
 * split on `=`, the first piece is the key and the second, `undefined` when
 * the part has no `=`, is the value. A value never extends past a second
 * `=`.
 */
module Query {
  import opened Js

  /** `part.split('=')[0]`. */
  function Key(part: string): (k: string)
    ensures '=' !in k
  {
    Split(part, '=')[0]
  }

  /** `part.split('=')[1]`. */
  function Value(part: string): (v: JsText)
    ensures v.Text? ==> '=' !in v.s
  {
    At(Split(part, '='), 1)
  }

  /** `k=v` reads back as key `k` and value `v`; `k=v=w` gives the same pair. */
  lemma PairOf(k: string, v: string, rest: seq<string>)
    requires '=' !in k && '=' !in v
    requires forall i :: 0 <= i < |rest| ==> '=' !in rest[i]
    ensures Key(Join([k, v] + rest, "=")) == k
    ensures Value(Join([k, v] + rest, "=")) == Text(v)
  {
    var parts := [k, v] + rest;
    forall i | 0 <= i < |parts| ensures '=' !in parts[i] {
      if i >= 2 {
        assert parts[i] == rest[i - 2];
      }
    }
    SplitJoin(parts, '=');
  }

  /** A part without `=` is all key, and its value is `undefined`. */
  lemma KeyOnly(part: string)
    requires '=' !in part
    ensures Key(part) == part && Value(part) == Undefined
  {
    SplitJoin([part], '=');
  }
}
